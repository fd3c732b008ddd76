/** ParseKeyBytes inverts MakeKey, and exactly when it does. */
module KeyRoundTrip {
  import opened Bytes
  import opened Escape
  import opened Scan
  import opened TagKeys

  /** The condition on the tags: every token that a delimiter follows is not open. */
  predicate CleanTags(tags: seq<Tag>) {
    tags == [] ||
    (!Open(tags[0].key) && (|tags| == 1 || !Open(tags[0].value)) && CleanTags(tags[1..]))
  }

  /** The condition on a whole key; without tags no delimiter follows the name. */
  predicate CleanKey(name: bytes, tags: seq<Tag>) {
    tags == [] || (name != [] && !Open(name) && CleanTags(tags))
  }

  predicate AllValued(tags: seq<Tag>) {
    forall i :: 0 <= i < |tags| ==> tags[i].value != []
  }

  // ---- scanning escaped text ----

  lemma NoStopInside(s: bytes, codes: set<byte>, stops: set<byte>)
    requires stops <= codes && BACKSLASH !in codes
    ensures NextBare(Escaped(s, codes), 0, stops) == |Escaped(s, codes)|
  {
    hide NextBare, Escaped;
    var e := Escaped(s, codes);
    forall j | 0 <= j < |e| ensures !IsBare(e, j, stops) {
      EscapedNotBare(s, codes, j);
    }
    NextBareIs(e, 0, stops, |e|);
  }

  /** A delimiter after escaped text stops the scan, unless the text is open. */
  lemma StopAfter(s: bytes, codes: set<byte>, stops: set<byte>, c: byte, rest: bytes)
    requires c in stops && stops <= codes && BACKSLASH !in codes
    ensures var e := NextBare(Escaped(s, codes) + ([c] + rest), 0, stops);
      if Open(s) then e > |Escaped(s, codes)| else e == |Escaped(s, codes)|
  {
    hide NextBare, Escaped;
    var e := Escaped(s, codes);
    var text := e + ([c] + rest);
    forall j | 0 <= j < |e| ensures !IsBare(text, j, stops) {
      EscapedNotBare(s, codes, j);
    }
    LastOf(s, codes);
    if Open(s) {
      assert !IsBare(text, |e|, stops);
      PastThese(text, stops, |e| + 1);
    } else {
      NextBareIs(text, 0, stops, |e|);
    }
  }

  lemma LastOf(s: bytes, codes: set<byte>)
    requires BACKSLASH !in codes
    ensures var e := Escaped(s, codes); Open(s) <==> e != [] && e[|e| - 1] == BACKSLASH
  {
    if s != [] {
      EscapedLast(s, codes);
    }
  }

  lemma PastThese(text: bytes, stops: set<byte>, n: nat)
    requires n <= |text| && forall j :: 0 <= j < n ==> !IsBare(text, j, stops)
    ensures NextBare(text, 0, stops) >= n
  {
    hide NextBare;
    NoneBefore(text, 0, stops);
  }

  lemma {:induction false} EscapedSnoc(s: bytes, b: byte, codes: set<byte>)
    requires b !in codes
    ensures Escaped(s + [b], codes) == Escaped(s, codes) + [b]
  {
    if s == [] {
      assert s + [b] == [b] && [b][1..] == [];
    } else {
      EscapedSnoc(s[1..], b, codes);
      assert (s + [b])[1..] == s[1..] + [b];
    }
  }

  /** What an open token is read back as: the delimiter has become part of it. */
  lemma OpenDiffers(s: bytes, codes: set<byte>, c: byte, rest: bytes)
    requires Open(s) && c in codes && BACKSLASH !in codes
    ensures Unescaped(Escaped(s, codes) + ([c] + rest), codes) != s
  {
    hide Escaped, Unescaped;
    var front := s[..|s| - 1];
    Snoc(s);
    EscapedSnoc(front, BACKSLASH, codes);
    var tail := [BACKSLASH] + ([c] + rest);
    Associate(Escaped(front, codes), [BACKSLASH], [c] + rest);
    UnescapeAppend(front, tail, codes);
    UnescapedCons(BACKSLASH, [c] + rest, codes);
    assert (front + ([c] + Unescaped(([c] + rest)[1..], codes)))[|front|] == c;
  }

  lemma PrefixOf(e: bytes, c: byte, rest: bytes, n: nat)
    requires |e| < n <= |e| + 1 + |rest|
    ensures (e + ([c] + rest))[..n] == e + ([c] + rest[..n - |e| - 1])
  {
  }

  // ---- the tags ----

  function Body(tags: seq<Tag>): bytes
    requires tags != []
  {
    Pair(tags[0]) + HashKey(tags[1..])
  }

  lemma HashKeyBody(tags: seq<Tag>)
    requires tags != [] && tags[0].value != []
    ensures HashKey(tags) == [COMMA] + Body(tags)
  {
    hide Pair;
    Associate([COMMA], Pair(tags[0]), HashKey(tags[1..]));
  }

  /** Body as the first key, '=', and what follows. */
  lemma BodyParts(tags: seq<Tag>)
    requires tags != []
    ensures Body(tags) == Escaped(tags[0].key, TOKEN) + ([EQUALS] + (Escaped(tags[0].value, TOKEN) + HashKey(tags[1..])))
  {
    hide Escaped, HashKey;
  }

  lemma AfterEquals(k: bytes, w: bytes)
    ensures (k + ([EQUALS] + w))[|k| + 1..] == w
    ensures (k + ([EQUALS] + w))[..|k|] == k
    ensures (k + ([EQUALS] + w))[|k|] == EQUALS
  {
  }

  /** A bare '=' in the printed tags is followed by the first byte of a value. */
  lemma {:induction false} ValueFollows(tags: seq<Tag>, e: nat)
    requires tags != [] && AllValued(tags)
    requires e < |Body(tags)| && IsBare(Body(tags), e, {EQUALS})
    ensures e + 1 < |Body(tags)| && Body(tags)[e + 1] != COMMA
  {
    hide Escaped, HashKey, Body;
    var k, v := Escaped(tags[0].key, TOKEN), Escaped(tags[0].value, TOKEN);
    BodyParts(tags);
    EscapedHead(tags[0].value, TOKEN);
    var start := |k| + 1 + |v|;
    if e < |k| {
      EscapedNotBare(tags[0].key, TOKEN, e);
    } else if e > |k| && e < start {
      EscapedNotBare(tags[0].value, TOKEN, e - |k| - 1);
    } else if e >= start {
      if |tags| == 1 {
        NoHashKey(tags[1..]);
      } else {
        HashKeyBody(tags[1..]);
        assert Body(tags)[start..] == HashKey(tags[1..]);
        if e > start {
          assert Body(tags)[e] == Body(tags[1..])[e - start - 1];
          assert e > start + 1 ==> Body(tags)[e - 1] == Body(tags[1..])[e - start - 2];
          ValueFollows(tags[1..], e - start - 1);
        }
      }
    }
  }

  lemma NoHashKey(tags: seq<Tag>)
    requires tags == []
    ensures HashKey(tags) == []
  {
  }

  lemma OpenKeyFails(tags: seq<Tag>)
    requires tags != [] && AllValued(tags) && Open(tags[0].key)
    ensures TagsIn(Body(tags)) != tags
  {
    hide Escaped, Unescaped, NextBare, TagsIn, Walk, HashKey, Body;
    var text := Body(tags);
    var w := Escaped(tags[0].value, TOKEN) + HashKey(tags[1..]);
    BodyParts(tags);
    StopAfter(tags[0].key, TOKEN, {EQUALS}, EQUALS, w);
    TagsInStep(text);
    var e := NextBare(text, 0, {EQUALS});
    if e < |text| {
      ValueFollows(tags, e);
      var k := Escaped(tags[0].key, TOKEN);
      PrefixOf(k, EQUALS, w, e);
      OpenDiffers(tags[0].key, TOKEN, EQUALS, w[..e - |k| - 1]);
    }
  }

  /** With a closed key, the first tag read is the key and whatever is read as its value. */
  lemma ClosedKeyReads(tags: seq<Tag>)
    requires tags != [] && AllValued(tags) && !Open(tags[0].key)
    ensures var w := Escaped(tags[0].value, TOKEN) + HashKey(tags[1..]);
      var n := NextBare(w, 0, {COMMA});
      n > 0 && TagsIn(Body(tags)) == [Tag(tags[0].key, Unescaped(w[..n], TOKEN))] + Walk(w, n + 1)
  {
    hide Escaped, Unescaped, NextBare, TagsIn, Walk, HashKey, Body;
    var w := Escaped(tags[0].value, TOKEN) + HashKey(tags[1..]);
    BodyParts(tags);
    EscapedHead(tags[0].value, TOKEN);
    FirstNotBare(w);
    StopAfter(tags[0].key, TOKEN, {EQUALS}, EQUALS, w);
    AfterEquals(Escaped(tags[0].key, TOKEN), w);
    ReadPair(Body(tags), |Escaped(tags[0].key, TOKEN)|);
    UnescapeEscape(tags[0].key, TOKEN);
  }

  lemma ReadPair(text: bytes, c: nat)
    requires c < |text| && text[c] == EQUALS && NextBare(text, 0, {EQUALS}) == c
    requires NextBare(text[c + 1..], 0, {COMMA}) > 0
    ensures var w := text[c + 1..];
      var n := NextBare(w, 0, {COMMA});
      TagsIn(text) == [Tag(Unescaped(text[..c], TOKEN), Unescaped(w[..n], TOKEN))] + Walk(w, n + 1)
  {
    hide Unescaped, NextBare, TagsIn, Walk;
    var n := NextBare(text[c + 1..], 0, {COMMA});
    TagsInStep(text);
    NextBareSuffix(text, c + 1, c + 1, {COMMA});
    WalkSuffix(text, c + 1, c + 1 + n + 1);
    Suffix(text, c + 1, c + 1, c + 1 + n);
  }

  lemma FirstNotBare(w: bytes)
    requires w != [] && w[0] != COMMA
    ensures NextBare(w, 0, {COMMA}) > 0
  {
  }

  /** The tags come back exactly when every token before a delimiter is closed. */
  lemma {:induction false} TagsRoundTrip(tags: seq<Tag>)
    requires tags != [] && AllValued(tags)
    ensures TagsIn(Body(tags)) == tags <==> CleanTags(tags)
  {
    hide Escaped, Unescaped, NextBare, TagsIn, Walk, HashKey, Body;
    if Open(tags[0].key) {
      OpenKeyFails(tags);
    } else {
      ClosedKeyReads(tags);
      var v := Escaped(tags[0].value, TOKEN);
      if |tags| == 1 {
        NoHashKey(tags[1..]);
        assert v + [] == v && v[..|v|] == v;
        NoStopInside(tags[0].value, TOKEN, {COMMA});
        UnescapeEscape(tags[0].value, TOKEN);
        WalkEnd(v, |v| + 1);
      } else {
        var rest := Body(tags[1..]);
        HashKeyBody(tags[1..]);
        StopAfter(tags[0].value, TOKEN, {COMMA}, COMMA, rest);
        var w := v + ([COMMA] + rest);
        var n := NextBare(w, 0, {COMMA});
        if Open(tags[0].value) {
          PrefixOf(v, COMMA, rest, n);
          OpenDiffers(tags[0].value, TOKEN, COMMA, rest[..n - |v| - 1]);
        } else {
          assert w[..|v|] == v;
          UnescapeEscape(tags[0].value, TOKEN);
          TagsRoundTrip(tags[1..]);
          BodyNotEmpty(tags[1..]);
          WalkRest(v, rest);
          ConsEqual(tags, TagsIn(rest));
        }
      }
    }
  }

  lemma BodyNotEmpty(tags: seq<Tag>)
    requires tags != []
    ensures Body(tags) != []
  {
  }

  lemma WalkRest(v: bytes, rest: bytes)
    requires rest != []
    ensures Walk(v + ([COMMA] + rest), |v| + 1) == TagsIn(rest)
  {
    hide TagsIn;
    assert (v + ([COMMA] + rest))[|v| + 1..] == rest;
  }

  lemma ConsEqual(tags: seq<Tag>, tail: seq<Tag>)
    requires tags != []
    ensures [tags[0]] + tail == tags <==> tail == tags[1..]
  {
    assert [tags[0]] + tags[1..] == tags;
    assert ([tags[0]] + tail)[1..] == tail;
  }

  // ---- the key ----

  lemma {:induction false} OnlyValuesPrinted(tags: seq<Tag>)
    ensures HashKey(tags) == HashKey(WithValues(tags))
    ensures AllValued(WithValues(tags))
  {
    if tags != [] {
      OnlyValuesPrinted(tags[1..]);
      if tags[0].value == [] {
        assert [] + HashKey(tags[1..]) == HashKey(tags[1..]) && [] + WithValues(tags[1..]) == WithValues(tags[1..]);
      } else {
        assert WithValues(tags)[1..] == WithValues(tags[1..]);
      }
    }
  }

  lemma NameWithoutTags(u: bytes)
    ensures ParseKey(Escaped(u, NAME)) == (u, [])
  {
    hide Escaped, Unescaped, NextBare, TagsOf;
    var e := Escaped(u, NAME);
    UnescapeEscape(u, NAME);
    NoStopInside(u, NAME, NAME);
    if u != [] {
      EscapedHead(u, NAME);
      SkipFirst(e, NAME);
      assert e[..|e|] == e;
    } else {
      EscapedNothing(NAME);
    }
  }

  lemma SkipFirst(text: bytes, stops: set<byte>)
    requires text != [] && text[0] !in stops
    ensures NextBare(text, 1, stops) == NextBare(text, 0, stops)
  {
  }

  lemma NameWithTags(u: bytes, rest: bytes)
    requires u != [] && rest != []
    ensures var r := ParseKey(Escaped(u, NAME) + ([COMMA] + rest));
      if Open(u) then r.0 != u else r == (u, TagsIn(rest))
  {
    hide Escaped, Unescaped, NextBare, TagsOf, TagsIn;
    var e := Escaped(u, NAME);
    var text := e + ([COMMA] + rest);
    EscapedHead(u, NAME);
    StopAfter(u, NAME, NAME, COMMA, rest);
    SkipFirst(text, NAME);
    var n := NextBare(text, 1, NAME);
    if Open(u) {
      PrefixOf(e, COMMA, rest, n);
      OpenDiffers(u, NAME, COMMA, rest[..n - |e| - 1]);
    } else {
      assert text[..|e|] == e;
      UnescapeEscape(u, NAME);
      TagsAfterName(u, rest);
    }
  }

  lemma TagsAfterName(u: bytes, rest: bytes)
    requires u != [] && !Open(u) && rest != []
    ensures TagsOf(Escaped(u, NAME) + ([COMMA] + rest)) == TagsIn(rest)
  {
    hide Escaped, NextBare, TagsIn, Walk;
    StopAfter(u, NAME, {COMMA}, COMMA, rest);
    EscapedHead(u, NAME);
    WalkRest(Escaped(u, NAME), rest);
  }

  lemma NoNameNoTags(rest: bytes)
    ensures ParseKey([COMMA] + rest) == ([], [])
  {
    assert ([COMMA] + rest)[..0] == [];
  }

  /**
   Parsing the key of any name and any tags gives back the unescaped name and the tags that have a
   value, if and only if no token that a delimiter follows ends with a backslash (and a key with tags
   has a name). Other backslashes, and every other byte, do no harm.
   */
  lemma KeyRoundTrip(name: bytes, tags: seq<Tag>)
    ensures ParseKey(MakeKey(name, tags)) == (Unescaped(name, NAME), WithValues(tags))
       <==> CleanKey(Unescaped(name, NAME), WithValues(tags))
  {
    hide Escaped, Unescaped, TagsIn, HashKey, ParseKey, CleanTags, Body;
    var u, ts := Unescaped(name, NAME), WithValues(tags);
    OnlyValuesPrinted(tags);
    if ts == [] {
      NoHashKey(ts);
      NameWithoutTags(u);
      assert Escaped(u, NAME) + [] == Escaped(u, NAME);
    } else {
      HashKeyBody(ts);
      BodyNotEmpty(ts);
      if u == [] {
        EscapedNothing(NAME);
        NoNameNoTags(Body(ts));
        assert [] + ([COMMA] + Body(ts)) == [COMMA] + Body(ts);
      } else {
        NameWithTags(u, Body(ts));
        TagsRoundTrip(ts);
      }
    }
  }

  predicate EscapePairAt(s: bytes, i: nat) {
    i + 1 < |s| && s[i] == BACKSLASH && s[i + 1] in NAME
  }

  /** The name that comes back is the name given exactly when it holds no escape sequence of its own. */
  lemma {:induction false} NameKept(name: bytes)
    ensures Unescaped(name, NAME) == name <==> !exists i: nat :: EscapePairAt(name, i)
    ensures |Unescaped(name, NAME)| <= |name|
    ensures (exists i: nat :: EscapePairAt(name, i)) ==> |Unescaped(name, NAME)| < |name|
  {
    if name != [] {
      var rest := name[1..];
      NameKept(rest);
      assert forall i: nat :: 0 < i < |name| ==> (EscapePairAt(name, i) <==> EscapePairAt(rest, i - 1));
      if EscapePairAt(name, 0) {
        NameKept(name[2..]);
      } else {
        assert Unescaped(name, NAME) == [name[0]] + Unescaped(rest, NAME);
        if exists i: nat :: EscapePairAt(name, i) {
          var i: nat :| EscapePairAt(name, i);
          assert EscapePairAt(rest, i - 1);
        } else {
          forall i: nat ensures !EscapePairAt(rest, i) {
            assert !EscapePairAt(name, i + 1);
          }
        }
      }
    }
  }

  /** The whole law without the condition is false: a name that ends with a backslash swallows the tags. */
  lemma TrailingBackslash()
    ensures var name, tags := [109, BACKSLASH], [Tag([107], [118])];
      ParseKey(MakeKey(name, tags)) != (Unescaped(name, NAME), WithValues(tags))
  {
    hide ParseKey, MakeKey;
    var name, tags := [109, BACKSLASH], [Tag([107], [118])];
    KeyRoundTrip(name, tags);
    assert name[1..][1..] == [];
    assert Unescaped(name, NAME) == [109] + Unescaped(name[1..], NAME);
    assert Unescaped(name, NAME) == [109, BACKSLASH];
    assert WithValues(tags) == [tags[0]] + WithValues(tags[1..]);
  }
}
