/** MakeKey and ParseKeyBytes: the key of a series is its measurement and its tags as escaped text. */
module TagKeys {
  import opened Bytes
  import opened Escape
  import opened Scan

  datatype Tag = Tag(key: bytes, value: bytes)

  const NAME: set<byte> := {COMMA, SPACE}
  const TOKEN: set<byte> := {COMMA, SPACE, EQUALS}

  // ---- printing ----

  function Pair(t: Tag): bytes {
    Escaped(t.key, TOKEN) + [EQUALS] + Escaped(t.value, TOKEN)
  }

  /** ",key=value" for every tag that has a value. */
  function HashKey(tags: seq<Tag>): bytes {
    if tags == [] then []
    else (if tags[0].value == [] then [] else [COMMA] + Pair(tags[0])) + HashKey(tags[1..])
  }

  /** The name is unescaped first, so that an escaped name is not escaped twice. */
  function MakeKey(name: bytes, tags: seq<Tag>): bytes {
    Escaped(Unescaped(name, NAME), NAME) + HashKey(tags)
  }

  function WithValues(tags: seq<Tag>): seq<Tag> {
    if tags == [] then []
    else (if tags[0].value == [] then [] else [tags[0]]) + WithValues(tags[1..])
  }

  function EscapedTag(t: Tag): Tag {
    Tag(Escaped(t.key, TOKEN), Escaped(t.value, TOKEN))
  }

  function EscapedTags(tags: seq<Tag>): (r: seq<Tag>)
    ensures |r| == |tags|
  {
    if tags == [] then [] else [EscapedTag(tags[0])] + EscapedTags(tags[1..])
  }

  /** The text of tags that are escaped already. */
  function RawText(tags: seq<Tag>): bytes {
    if tags == [] then [] else RawTag(tags[0]) + RawText(tags[1..])
  }

  function RawTag(t: Tag): bytes {
    if t.value == [] then [] else [COMMA] + (t.key + [EQUALS] + t.value)
  }

  function Size(tags: seq<Tag>): nat {
    if tags == [] then 0 else |tags[0].key| + |tags[0].value| + Size(tags[1..])
  }

  lemma {:induction false} RawTextFits(tags: seq<Tag>)
    ensures |RawText(tags)| <= Size(tags) + 3 * |tags|
  {
    if tags != [] {
      RawTextFits(tags[1..]);
    }
  }

  lemma {:induction false} RawTextIsHashKey(tags: seq<Tag>)
    ensures RawText(EscapedTags(tags)) == HashKey(tags)
  {
    if tags != [] {
      RawTextIsHashKey(tags[1..]);
      assert EscapedTags(tags)[1..] == EscapedTags(tags[1..]);
      if tags[0].value != [] {
        EscapedHead(tags[0].value, TOKEN);
      }
    }
  }

  predicate Special(t: Tag) {
    exists b :: b in TOKEN && (b in t.key || b in t.value)
  }

  method NeedsEscape(tags: seq<Tag>) returns (r: bool)
    ensures r <==> exists i :: 0 <= i < |tags| && Special(tags[i])
  {
    for i := 0 to |tags|
      invariant forall n :: 0 <= n < i ==> !Special(tags[n])
    {
      var t := tags[i];
      for j := 0 to |TAG_CODES|
        invariant forall m :: 0 <= m < j ==> TAG_CODES[m] !in t.key && TAG_CODES[m] !in t.value
      {
        if TAG_CODES[j] in t.key || TAG_CODES[j] in t.value {
          assert Special(tags[i]);
          return true;
        }
      }
      assert TAG_CODES[0] !in t.key && TAG_CODES[1] !in t.key && TAG_CODES[2] !in t.key;
      assert TAG_CODES[0] !in t.value && TAG_CODES[1] !in t.value && TAG_CODES[2] !in t.value;
    }
    return false;
  }

  lemma {:induction false} NothingToEscape(tags: seq<Tag>)
    requires forall i :: 0 <= i < |tags| ==> !Special(tags[i])
    ensures EscapedTags(tags) == tags
  {
    if tags != [] {
      NothingToEscape(tags[1..]);
      assert !Special(tags[0]);
      EscapedAbsent(tags[0].key, TOKEN);
      EscapedAbsent(tags[0].value, TOKEN);
    }
  }

  lemma {:induction false} EscapedTagsSnoc(tags: seq<Tag>, t: Tag)
    ensures EscapedTags(tags + [t]) == EscapedTags(tags) + [EscapedTag(t)]
    ensures Size(tags + [t]) == Size(tags) + |t.key| + |t.value|
  {
    if tags == [] {
      assert tags + [t] == [t] && [t][1..] == [];
    } else {
      EscapedTagsSnoc(tags[1..], t);
      assert (tags + [t])[1..] == tags[1..] + [t];
    }
  }

  method EscapeEach(tags: seq<Tag>) returns (escaped: seq<Tag>, size: nat)
    ensures escaped == EscapedTags(tags) && size == Size(escaped)
  {
    hide EscapedTags, Size, Escaped;
    NoTags();
    assert Codes(TAG_CODES) == TOKEN;
    escaped, size := [], 0;
    for i := 0 to |tags|
      invariant escaped == EscapedTags(tags[..i]) && size == Size(escaped)
    {
      var key := EscapeAll(tags[i].key, TAG_CODES);
      var value := EscapeAll(tags[i].value, TAG_CODES);
      EscapedTagsSnoc(tags[..i], tags[i]);
      assert tags[..i + 1] == tags[..i] + [tags[i]];
      EscapedTagsSnoc(escaped, Tag(key, value));
      escaped := escaped + [Tag(key, value)];
      size := size + |key| + |value|;
    }
    assert tags[..|tags|] == tags;
  }

  method SumSizes(tags: seq<Tag>) returns (size: nat)
    ensures size == Size(tags)
  {
    size := 0;
    for i := 0 to |tags|
      invariant size == Size(tags[..i])
    {
      EscapedTagsSnoc(tags[..i], tags[i]);
      assert tags[..i + 1] == tags[..i] + [tags[i]];
      size := size + |tags[i].key| + |tags[i].value|;
    }
    assert tags[..|tags|] == tags;
  }

  lemma NoTags()
    ensures EscapedTags([]) == [] && Size([]) == 0
  {
  }

  /** The tags as they go into the key, and the number of bytes of their keys and values. */
  method EscapeTags(tags: seq<Tag>) returns (escaped: seq<Tag>, size: nat)
    ensures escaped == EscapedTags(tags) && size == Size(escaped)
  {
    var needed := NeedsEscape(tags);
    if needed {
      escaped, size := EscapeEach(tags);
    } else {
      NothingToEscape(tags);
      escaped := tags;
      size := SumSizes(tags);
    }
  }

  /** Writes ",key=value" of one escaped tag at idx. */
  method PutTag(buf: array<byte>, idx: nat, t: Tag) returns (next: nat)
    requires t.value != [] && idx + |RawTag(t)| <= buf.Length
    modifies buf
    ensures next == idx + |RawTag(t)|
    ensures buf[..next] == old(buf[..idx]) + RawTag(t)
  {
    next := idx;
    buf[next] := COMMA;
    next := next + 1;
    assert buf[..next] == old(buf[..idx]) + [COMMA];
    var n := CopyInto(buf, next, t.key);
    next := next + n;
    ghost var keyed := buf[..next];
    buf[next] := EQUALS;
    next := next + 1;
    assert buf[..next] == keyed + [EQUALS];
    n := CopyInto(buf, next, t.value);
    next := next + n;
    RawTagParts(old(buf[..idx]), t);
  }

  lemma RawTagParts(done: bytes, t: Tag)
    requires t.value != []
    ensures done + [COMMA] + t.key + [EQUALS] + t.value == done + RawTag(t)
  {
    assert done + [COMMA] + t.key == done + ([COMMA] + t.key);
  }

  /** AppendHashKey; no write leaves the buffer, whose size is computed before. */
  method AppendHashKey(dst: bytes, tags: seq<Tag>) returns (out: bytes)
    ensures out == dst + HashKey(tags)
  {
    if |tags| == 0 {
      return dst;
    }
    var escaped, sz := EscapeTags(tags);
    RawTextFits(escaped);
    RawTextIsHashKey(tags);
    hide RawText, RawTag, HashKey, Size;
    sz := sz + |escaped| + |escaped| * 2;
    var buf := new byte[sz](_ => 0);
    var idx := 0;
    for i := 0 to |escaped|
      invariant 0 <= idx <= buf.Length
      invariant buf[..idx] + RawText(escaped[i..]) == RawText(escaped)
    {
      RawTextStep(escaped, i, buf[..idx]);
      if |escaped[i].value| == 0 {
        continue;
      }
      idx := PutTag(buf, idx, escaped[i]);
    }
    NoRawText(escaped[|escaped|..]);
    return dst + buf[..idx];
  }

  lemma RawTextStep(tags: seq<Tag>, i: nat, done: bytes)
    requires i < |tags|
    ensures RawText(tags[i..]) == RawTag(tags[i]) + RawText(tags[i + 1..])
    ensures done + RawText(tags[i..]) == done + RawTag(tags[i]) + RawText(tags[i + 1..])
    ensures tags[i].value == [] ==> RawTag(tags[i]) == [] && done + RawTag(tags[i]) == done
  {
    assert tags[i..][1..] == tags[i + 1..];
  }

  lemma NoRawText(tags: seq<Tag>)
    requires tags == []
    ensures RawText(tags) == []
  {
  }

  method AppendMakeKey(dst: bytes, name: bytes, tags: seq<Tag>) returns (out: bytes)
    ensures out == dst + MakeKey(name, tags)
  {
    var plain := UnescapeAll(name, MEASUREMENT_CODES);
    var escaped := EscapeAll(plain, MEASUREMENT_CODES);
    assert Codes(MEASUREMENT_CODES) == NAME;
    out := AppendHashKey(dst + escaped, tags);
    assert dst + escaped + HashKey(tags) == dst + (escaped + HashKey(tags));
  }

  // ---- reading ----

  /** The tags in the text after the first comma of a key; a key without '=' or without value is skipped. */
  function TagsIn(text: bytes): seq<Tag>
    decreases |text|, 0
  {
    if text == [] then []
    else
      var e := NextBare(text, 0, {EQUALS});
      if e == |text| then []
      else
        var v := NextBare(text, e + 1, {COMMA});
        if v == e + 1 then Walk(text, v)
        else [Tag(Unescaped(text[..e], TOKEN), Unescaped(text[e + 1..v], TOKEN))] + Walk(text, v + 1)
  }

  /** The tags from position i on, given by the text from i on. */
  function Walk(buf: bytes, i: nat): seq<Tag>
    decreases |buf| - i, 1
  {
    if i < |buf| then TagsIn(buf[i..]) else []
  }

  function TagsOf(buf: bytes): seq<Tag> {
    if buf == [] then []
    else
      var pos := NextBare(buf, 0, {COMMA});
      if pos == 0 then [] else Walk(buf, pos + 1)
  }

  function ParseKey(buf: bytes): (bytes, seq<Tag>) {
    match MeasurementStep(buf, 0)
    case ToTagKey(next) => (Unescaped(buf[..next - 1], NAME), TagsOf(buf))
    case ToFields(e) => (Unescaped(buf[..e], NAME), [])
    case Bad(at, _) => (Unescaped(buf[..at], NAME), [])
    case ToTagValue(_) => ([], [])
  }

  /** After a byte that is not a backslash, scanning the rest alone finds the same stop. */
  lemma NextBareSuffix(buf: bytes, i: nat, j: nat, stops: set<byte>)
    requires i <= j <= |buf| && (i == 0 || buf[i - 1] != BACKSLASH)
    ensures NextBare(buf, j, stops) == i + NextBare(buf[i..], j - i, stops)
  {
    var e := NextBare(buf[i..], j - i, stops);
    NoneBefore(buf[i..], j - i, stops);
    forall n | j <= n < i + e ensures !IsBare(buf, n, stops) {
      assert !IsBare(buf[i..], n - i, stops);
    }
    NextBareIs(buf, j, stops, i + e);
  }

  lemma Suffix(buf: bytes, i: nat, a: nat, b: nat)
    requires i <= a <= b <= |buf|
    ensures buf[i..][a - i..b - i] == buf[a..b] && buf[i..][a - i..] == buf[a..]
  {
  }

  lemma TagsInStep(text: bytes)
    requires text != []
    ensures var e := NextBare(text, 0, {EQUALS});
      if e == |text| then TagsIn(text) == []
      else
        var v := NextBare(text, e + 1, {COMMA});
        if v == e + 1 then TagsIn(text) == Walk(text, v)
        else TagsIn(text) == [Tag(Unescaped(text[..e], TOKEN), Unescaped(text[e + 1..v], TOKEN))] + Walk(text, v + 1)
  {
    hide NextBare, Walk, Unescaped;
  }

  lemma WalkStep(buf: bytes, i: nat)
    requires 0 < i < |buf| && buf[i - 1] != BACKSLASH
    ensures var e := NextBare(buf, i, {EQUALS});
      if e == |buf| then Walk(buf, i) == []
      else
        var v := NextBare(buf, e + 1, {COMMA});
        if v == e + 1 then Walk(buf, i) == Walk(buf, v)
        else Walk(buf, i) == [Tag(Unescaped(buf[i..e], TOKEN), Unescaped(buf[e + 1..v], TOKEN))] + Walk(buf, v + 1)
  {
    hide NextBare, TagsIn, Unescaped, Walk;
    TagsInStep(buf[i..]);
    NextBareSuffix(buf, i, i, {EQUALS});
    var e := NextBare(buf, i, {EQUALS});
    WalkSuffix(buf, i, i);
    WalkAll(buf[i..]);
    if e < |buf| {
      NextBareSuffix(buf, i, e + 1, {COMMA});
      var v := NextBare(buf, e + 1, {COMMA});
      Suffix(buf, i, i, e);
      Suffix(buf, i, e + 1, v);
      WalkSuffix(buf, i, v);
      WalkSuffix(buf, i, v + 1);
    }
  }

  lemma WalkAll(text: bytes)
    requires text != []
    ensures Walk(text, 0) == TagsIn(text)
  {
    assert text[0..] == text;
  }

  lemma WalkSuffix(buf: bytes, i: nat, j: nat)
    requires i <= j && i <= |buf|
    ensures Walk(buf[i..], j - i) == Walk(buf, j)
  {
    hide TagsIn;
    if j < |buf| {
      Suffix(buf, i, j, |buf|);
    }
  }

  lemma CountHit(buf: bytes, i: nat)
    requires i < |buf| && buf[i] == COMMA
    ensures Count(buf[..i + 1], COMMA) == Count(buf[..i], COMMA) + 1 <= Count(buf, COMMA)
  {
    assert buf[..i + 1][..i] == buf[..i];
    CountPrefix(buf, COMMA, i + 1, |buf|);
    assert buf[..|buf|] == buf;
  }

  lemma CommasUpTo(buf: bytes, i: nat, v: nat)
    requires i <= v <= |buf|
    ensures Count(buf[..i], COMMA) <= Count(buf[..v], COMMA) <= Count(buf, COMMA)
    ensures v < |buf| && buf[v] == COMMA ==>
              Count(buf[..i], COMMA) + 1 <= Count(buf[..v + 1], COMMA) <= Count(buf, COMMA)
  {
    CountPrefix(buf, COMMA, i, v);
    CountPrefix(buf, COMMA, v, |buf|);
    assert buf[..|buf|] == buf;
    if v < |buf| && buf[v] == COMMA {
      CountHit(buf, v);
    }
  }

  /**
   parseTags with walkTags on arbitrary bytes. The destination has one slot for each comma; every tag
   follows a comma of its own, so no write leaves it, and each round moves forward.
   */
  method ParseTags(buf: bytes) returns (tags: seq<Tag>)
    ensures tags == TagsOf(buf)
    ensures |tags| <= Count(buf, COMMA)
  {
    if |buf| == 0 {
      return [];
    }
    var dst := new Tag[Count(buf, COMMA)](_ => Tag([], []));
    var pos := ScanTo(buf, 0, COMMA);
    if pos == 0 || pos == |buf| {
      return [];
    }
    CountHit(buf, pos);
    var filled := WalkInto(buf, pos + 1, dst);
    return dst[..filled];
  }

  /** The loop of walkTags with the callback of parseTags. */
  method WalkInto(buf: bytes, start: nat, dst: array<Tag>) returns (filled: nat)
    requires 0 < start <= |buf| && buf[start - 1] == COMMA
    requires Count(buf[..start], COMMA) >= 1 && dst.Length == Count(buf, COMMA)
    modifies dst
    ensures filled <= dst.Length && dst[..filled] == Walk(buf, start)
  {
    hide Walk, NextBare, Unescaped, Count;
    CommasUpTo(buf, start, start);
    var i := start;
    filled := 0;
    while i < |buf|
      invariant start <= i <= |buf| + 1
      invariant i <= |buf| ==> buf[i - 1] != BACKSLASH
      invariant i <= |buf| ==> filled + 1 <= Count(buf[..i], COMMA) <= dst.Length
      invariant filled <= dst.Length
      invariant dst[..filled] + Walk(buf, i) == Walk(buf, start)
      decreases |buf| + 1 - i
    {
      WalkStep(buf, i);
      var e := ScanTo(buf, i, EQUALS);
      var v := ScanTagValue(buf, e + 1);
      if v <= |buf| {
        CommasUpTo(buf, i, v);
      }
      if v > |buf| || v == e + 1 {
        if v >= |buf| {
          WalkEnd(buf, v);
        }
        i := v;
        continue;
      }
      var key := UnescapeAll(buf[i..e], TAG_CODES);
      var value := UnescapeAll(buf[e + 1..v], TAG_CODES);
      assert Codes(TAG_CODES) == TOKEN;
      ghost var before := dst[..filled];
      dst[filled] := Tag(key, value);
      filled := filled + 1;
      assert dst[..filled] == before + [Tag(key, value)];
      i := v + 1;
    }
    WalkEnd(buf, i);
  }

  lemma WalkEnd(buf: bytes, i: nat)
    requires i >= |buf|
    ensures Walk(buf, i) == []
  {
  }

  method ParseKeyBytes(buf: bytes) returns (name: bytes, tags: seq<Tag>)
    ensures (name, tags) == ParseKey(buf)
  {
    assert Codes(MEASUREMENT_CODES) == NAME;
    var s := ScanMeasurement(buf, 0);
    match s {
      case ToTagKey(next) =>
        tags := ParseTags(buf);
        name := UnescapeAll(buf[..next - 1], MEASUREMENT_CODES);
      case ToFields(e) =>
        tags := [];
        name := UnescapeAll(buf[..e], MEASUREMENT_CODES);
      case Bad(at, _) =>
        tags := [];
        name := UnescapeAll(buf[..at], MEASUREMENT_CODES);
    }
  }
}
