/** Escaping of measurement names, tags and string fields: replacements one after the other against one pass over the text. */
module Escape {
  import opened Bytes

  /** The escape codes in the order of the source's tables. */
  const MEASUREMENT_CODES: seq<byte> := [COMMA, SPACE]
  const TAG_CODES: seq<byte> := [COMMA, SPACE, EQUALS]

  function Codes(order: seq<byte>): set<byte> {
    set k | k in order
  }

  /** Reference definition: a backslash before every byte that is in codes, in one pass. */
  function Escaped(s: bytes, codes: set<byte>): bytes {
    if s == [] then []
    else (if s[0] in codes then [BACKSLASH, s[0]] else [s[0]]) + Escaped(s[1..], codes)
  }

  /** Reference definition: drop every backslash that stands before a byte in codes, in one pass. */
  function Unescaped(s: bytes, codes: set<byte>): bytes {
    if s == [] then []
    else if |s| >= 2 && s[0] == BACKSLASH && s[1] in codes then [s[1]] + Unescaped(s[2..], codes)
    else [s[0]] + Unescaped(s[1..], codes)
  }

  /** The bytes at which a scanner would stop: in codes, and with no backslash before. */
  predicate IsBare(s: bytes, i: nat, codes: set<byte>)
    requires i < |s|
  {
    s[i] in codes && (i == 0 || s[i - 1] != BACKSLASH)
  }

  /** Text that ends with a backslash: printed before a delimiter, it escapes the delimiter. */
  predicate Open(s: bytes) {
    s != [] && s[|s| - 1] == BACKSLASH
  }

  /** Read from the left, every backslash takes one byte along, and none of these is in codes. */
  predicate PairSafe(s: bytes, codes: set<byte>) {
    s == [] ||
    (if s[0] == BACKSLASH then |s| >= 2 && s[1] !in codes && PairSafe(s[2..], codes) else PairSafe(s[1..], codes))
  }

  // ---- one pass after the other equals one pass ----

  lemma {:induction false} EscapedTwice(s: bytes, codes: set<byte>, k: byte)
    requires k !in codes && BACKSLASH !in codes && k != BACKSLASH
    ensures Escaped(Escaped(s, codes), {k}) == Escaped(s, codes + {k})
  {
    if s != [] {
      EscapedTwice(s[1..], codes, k);
      var tail := Escaped(s[1..], codes);
      if s[0] in codes {
        assert Escaped(s, codes) == [BACKSLASH, s[0]] + tail;
        assert ([BACKSLASH, s[0]] + tail)[1..] == [s[0]] + tail;
        assert ([s[0]] + tail)[1..] == tail;
        assert Escaped([s[0]] + tail, {k}) == [s[0]] + Escaped(tail, {k});
        assert Escaped([BACKSLASH, s[0]] + tail, {k}) == [BACKSLASH] + ([s[0]] + Escaped(tail, {k}));
      } else {
        assert ([s[0]] + tail)[1..] == tail;
      }
    }
  }

  lemma {:induction false} UnescapedTwice(s: bytes, codes: set<byte>, k: byte)
    requires k !in codes && BACKSLASH !in codes && k != BACKSLASH
    ensures Unescaped(Unescaped(s, codes), {k}) == Unescaped(s, codes + {k})
  {
    if s != [] {
      if |s| >= 2 && s[0] == BACKSLASH && s[1] in codes {
        UnescapedTwice(s[2..], codes, k);
        var tail := Unescaped(s[2..], codes);
        assert ([s[1]] + tail)[1..] == tail;
      } else {
        UnescapedTwice(s[1..], codes, k);
        var tail := Unescaped(s[1..], codes);
        assert Unescaped(s, codes) == [s[0]] + tail;
        assert ([s[0]] + tail)[1..] == tail;
        if s[0] == BACKSLASH && |s| >= 2 && s[1] == k {
          UnescapedTwice(s[2..], codes, k);
          var rest := Unescaped(s[2..], codes);
          assert s[1..][1..] == s[2..];
          assert tail == [k] + rest;
          assert ([BACKSLASH] + tail)[2..] == rest;
        }
      }
    }
  }

  lemma {:induction false} UnescapedNothing(s: bytes, codes: set<byte>)
    requires BACKSLASH !in s
    ensures Unescaped(s, codes) == s
  {
    if s != [] {
      UnescapedNothing(s[1..], codes);
    }
  }

  lemma {:induction false} UnescapedAbsent(s: bytes, k: byte)
    requires k !in s
    ensures Unescaped(s, {k}) == s
  {
    if s != [] {
      UnescapedAbsent(s[1..], k);
    }
  }

  lemma {:induction false} EscapedAbsent(s: bytes, codes: set<byte>)
    requires forall b :: b in s ==> b !in codes
    ensures Escaped(s, codes) == s
  {
    if s != [] {
      EscapedAbsent(s[1..], codes);
    }
  }

  lemma {:induction false} EscapedNoCodes(s: bytes)
    ensures Escaped(s, {}) == s && Unescaped(s, {}) == s
  {
    if s != [] {
      EscapedNoCodes(s[1..]);
    }
  }

  // ---- the source's loops ----

  predicate ProperCodes(order: seq<byte>) {
    BACKSLASH !in order && forall i, j :: 0 <= i < j < |order| ==> order[i] != order[j]
  }

  /** EscapeMeasurement and escapeTag: one bytes.Replace for each code that occurs. */
  method EscapeAll(text: bytes, order: seq<byte>) returns (out: bytes)
    requires ProperCodes(order)
    ensures out == Escaped(text, Codes(order))
  {
    out := text;
    EscapedNoCodes(text);
    assert Codes(order[..0]) == {};
    for i := 0 to |order|
      invariant out == Escaped(text, Codes(order[..i]))
    {
      var k := order[i];
      EscapedTwice(text, Codes(order[..i]), k);
      assert Codes(order[..i + 1]) == Codes(order[..i]) + {k};
      if k in out {
        out := Escaped(out, {k});
      } else {
        EscapedAbsent(out, {k});
      }
    }
    assert order[..|order|] == order;
  }

  /** unescapeMeasurement and unescapeTag. */
  method UnescapeAll(text: bytes, order: seq<byte>) returns (out: bytes)
    requires ProperCodes(order)
    ensures out == Unescaped(text, Codes(order))
  {
    if BACKSLASH !in text {
      UnescapedNothing(text, Codes(order));
      return text;
    }
    out := text;
    EscapedNoCodes(text);
    assert Codes(order[..0]) == {};
    for i := 0 to |order|
      invariant out == Unescaped(text, Codes(order[..i]))
    {
      var k := order[i];
      UnescapedTwice(text, Codes(order[..i]), k);
      assert Codes(order[..i + 1]) == Codes(order[..i]) + {k};
      if k in out {
        out := Unescaped(out, {k});
      } else {
        UnescapedAbsent(out, k);
      }
    }
    assert order[..|order|] == order;
  }

  /** unescapeStringField: only a double quote and a backslash can be escaped. */
  method UnescapeStringField(text: bytes) returns (out: bytes)
    ensures out == Unescaped(text, {QUOTE, BACKSLASH})
  {
    if BACKSLASH !in text {
      UnescapedNothing(text, {QUOTE, BACKSLASH});
      return text;
    }
    hide Unescaped;
    out := [];
    var i := 0;
    while i < |text|
      invariant 0 <= i <= |text|
      invariant out + Unescaped(text[i..], {QUOTE, BACKSLASH}) == Unescaped(text, {QUOTE, BACKSLASH})
    {
      UnescapedStep(text, i, {QUOTE, BACKSLASH}, out);
      if text[i] == BACKSLASH && i + 1 < |text| && text[i + 1] == BACKSLASH {
        out := out + [BACKSLASH];
        i := i + 2;
        continue;
      }
      if text[i] == BACKSLASH && i + 1 < |text| && text[i + 1] == QUOTE {
        out := out + [QUOTE];
        i := i + 2;
        continue;
      }
      out := out + [text[i]];
      i := i + 1;
    }
  }

  lemma UnescapedStep(text: bytes, i: nat, codes: set<byte>, out: bytes)
    requires i < |text|
    ensures if text[i] == BACKSLASH && i + 1 < |text| && text[i + 1] in codes
            then out + [text[i + 1]] + Unescaped(text[i + 2..], codes) == out + Unescaped(text[i..], codes)
            else out + [text[i]] + Unescaped(text[i + 1..], codes) == out + Unescaped(text[i..], codes)
    ensures Unescaped([], codes) == []
  {
    var rest := text[i..];
    assert rest[1..] == text[i + 1..];
    if i + 1 < |text| {
      assert rest[2..] == text[i + 2..];
    }
  }

  // ---- round trips ----

  /**
   Unescaping undoes escaping on every byte string, backslashes included, although measurement and
   tag escaping leave the backslash itself alone: each special byte got exactly one backslash.
   */
  lemma {:induction false} UnescapeEscape(s: bytes, codes: set<byte>)
    ensures Unescaped(Escaped(s, codes), codes) == s
  {
    if s != [] {
      UnescapeEscape(s[1..], codes);
      var tail := Escaped(s[1..], codes);
      if s[0] in codes {
        assert ([BACKSLASH, s[0]] + tail)[2..] == tail;
      } else {
        assert ([s[0]] + tail)[1..] == tail;
        if s[0] == BACKSLASH && tail != [] {
          EscapedHead(s[1..], codes);
        }
      }
    }
  }

  lemma EscapedHead(s: bytes, codes: set<byte>)
    requires s != []
    ensures Escaped(s, codes) != []
    ensures Escaped(s, codes)[0] == if s[0] in codes then BACKSLASH else s[0]
  {
  }

  lemma {:induction false} PlainIsSafe(s: bytes, codes: set<byte>)
    requires BACKSLASH !in s
    ensures PairSafe(s, codes)
  {
    if s != [] {
      PlainIsSafe(s[1..], codes);
    }
  }

  /** Escaped text starts with a pair of a backslash and one byte, or with a byte that is not special. */
  lemma EscapedPair(s: bytes, codes: set<byte>) returns (head: bytes, rest: bytes)
    requires s != [] && PairSafe(s, codes) && BACKSLASH !in codes
    ensures rest == s[if s[0] == BACKSLASH then 2 else 1..] && |rest| < |s| && PairSafe(rest, codes)
    ensures Escaped(s, codes) == head + Escaped(rest, codes)
    ensures if s[0] == BACKSLASH || s[0] in codes then |head| == 2 && head[0] == BACKSLASH else head == [s[0]]
  {
    if s[0] == BACKSLASH {
      head, rest := [BACKSLASH, s[1]], s[2..];
      assert s[1..][1..] == s[2..];
      Associate([BACKSLASH], [s[1]], Escaped(rest, codes));
    } else {
      head, rest := if s[0] in codes then [BACKSLASH, s[0]] else [s[0]], s[1..];
    }
  }

  /** Inside escaped text no special byte is bare, whatever backslashes the text held before. */
  lemma {:induction false} EscapedNotBare(s: bytes, codes: set<byte>, i: nat)
    requires i < |Escaped(s, codes)|
    requires BACKSLASH !in codes
    ensures !IsBare(Escaped(s, codes), i, codes)
  {
    var e := Escaped(s, codes);
    var tail := Escaped(s[1..], codes);
    var head := if s[0] in codes then [BACKSLASH, s[0]] else [s[0]];
    assert e == head + tail;
    if i > |head| {
      EscapedNotBare(s[1..], codes, i - |head|);
    } else if i == |head| {
      EscapedHead(s[1..], codes);
    }
  }

  /** Escaped text ends with a backslash exactly when the plain text does. */
  lemma {:induction false} EscapedLast(s: bytes, codes: set<byte>)
    requires s != [] && BACKSLASH !in codes
    ensures Escaped(s, codes) != []
    ensures Escaped(s, codes)[|Escaped(s, codes)| - 1] == s[|s| - 1]
  {
    if |s| > 1 {
      EscapedLast(s[1..], codes);
      assert s[1..][|s| - 2] == s[|s| - 1];
    } else {
      assert s[1..] == [];
      assert Escaped([], codes) == [];
    }
  }

  /** Escaped text followed by more text unescapes part by part, unless a backslash escapes what follows. */
  lemma {:induction false} UnescapeAppend(s: bytes, t: bytes, codes: set<byte>)
    requires s == [] || s[|s| - 1] != BACKSLASH || t == [] || t[0] !in codes
    ensures Unescaped(Escaped(s, codes) + t, codes) == s + Unescaped(t, codes)
  {
    hide Escaped, Unescaped;
    if s == [] {
      EscapedNothing(codes);
      assert [] + t == t;
    } else {
      var tail := Escaped(s[1..], codes) + t;
      EscapedAppend(s, t, codes);
      if |s| > 1 {
        EscapedHead(s[1..], codes);
      }
      UnescapeAppend(s[1..], t, codes);
      Regroup(s, Unescaped(t, codes));
      UnescapedCons(BACKSLASH, [s[0]] + tail, codes);
      UnescapedCons(s[0], tail, codes);
      assert ([s[0]] + tail)[1..] == tail;
      assert s[0] == BACKSLASH && BACKSLASH !in codes && tail != [] ==> tail[0] !in codes by {
        if |s| == 1 {
          EscapedNothing(codes);
          assert s[1..] == [] && tail == t;
        }
      }
    }
  }

  lemma EscapedNothing(codes: set<byte>)
    ensures Escaped([], codes) == []
  {
  }

  lemma EscapedAppend(s: bytes, t: bytes, codes: set<byte>)
    requires s != []
    ensures Escaped(s, codes) + t ==
            if s[0] in codes then [BACKSLASH] + ([s[0]] + (Escaped(s[1..], codes) + t))
            else [s[0]] + (Escaped(s[1..], codes) + t)
  {
  }

  lemma Regroup(s: bytes, u: bytes)
    requires s != []
    ensures [s[0]] + (s[1..] + u) == s + u
  {
  }

  lemma UnescapedCons(b: byte, rest: bytes, codes: set<byte>)
    ensures Unescaped([b] + rest, codes) ==
            if b == BACKSLASH && rest != [] && rest[0] in codes then [rest[0]] + Unescaped(rest[1..], codes)
            else [b] + Unescaped(rest, codes)
  {
    assert ([b] + rest)[1..] == rest;
    if rest != [] {
      assert ([b] + rest)[2..] == rest[1..];
    }
  }
}
