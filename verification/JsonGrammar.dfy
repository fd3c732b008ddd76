/** The grammar of RFC 4627, for numbers without exponents, as functions that find the end of a value; and the bracket count. */
module JsonGrammar {
  import opened Bytes
  import opened Decimal
  import opened Utf8
  import opened JsonString
  import opened JsonIterator

  /** The text after what was recognised. */
  datatype Match = Match(rest: bytes) | NoMatch

  // ---- strings: section 2.5 ----

  /** A string after its opening quote: bytes from 0x20 on and escapes. */
  function StringRest(t: bytes): (m: Match)
    ensures m.Match? ==> |m.rest| < |t|
    decreases |t|
  {
    if t == [] then NoMatch
    else if t[0] == QUOTE then Match(t[1..])
    else if t[0] == BACKSLASH then
      if |t| < 2 then NoMatch
      else if t[1] == LOWER_U then (if HasU4(t[2..]) then StringRest(t[6..]) else NoMatch)
      else if Letter(t[1]) == NUL then NoMatch
      else StringRest(t[2..])
    else if t[0] < SPACE then NoMatch
    else StringRest(t[1..])
  }

  // ---- numbers: section 2.4 ----

  function SkipDigits(t: bytes): (r: bytes)
    ensures |r| <= |t|
    ensures r != [] ==> !IsDigit(r[0])
  {
    if t != [] && IsDigit(t[0]) then SkipDigits(t[1..]) else t
  }

  /** What may stand after a number. */
  predicate EndsNumber(c: byte) {
    c == COMMA || c == RBRACKET || c == RBRACE || IsSpace(c)
  }

  /** After the integer part: nothing or a fraction. */
  function FractionRest(t: bytes): (m: Match)
    ensures m.Match? ==> |m.rest| <= |t|
  {
    if t != [] && t[0] == DOT then
      if |t| >= 2 && IsDigit(t[1]) then Match(SkipDigits(t[1..])) else NoMatch
    else Match(t)
  }

  /** The text after the integer part of an unsigned number. */
  function IntegerRest(t: bytes): (m: Match)
    ensures m.Match? ==> |m.rest| < |t|
  {
    if t == [] || !IsDigit(t[0]) then NoMatch
    else if t[0] == ZERO then Match(t[1..])
    else Match(SkipDigits(t[1..]))
  }

  function UnsignedRest(t: bytes): (m: Match)
    ensures m.Match? ==> |m.rest| < |t| && m.rest != [] && EndsNumber(m.rest[0])
  {
    var i := IntegerRest(t);
    if i.NoMatch? then NoMatch
    else
      var f := FractionRest(i.rest);
      if f.Match? && f.rest != [] && EndsNumber(f.rest[0]) then f else NoMatch
  }

  function Unsigned(t: bytes): bytes {
    if t != [] && t[0] == MINUS then t[1..] else t
  }

  lemma {:induction false} SkippedDigits(t: bytes)
    ensures AllDigits(t[..|t| - |SkipDigits(t)|])
    ensures t[|t| - |SkipDigits(t)|..] == SkipDigits(t)
  {
    if t != [] && IsDigit(t[0]) {
      SkippedDigits(t[1..]);
      var n := |t| - |SkipDigits(t)|;
      assert t[..n] == [t[0]] + t[1..][..n - 1];
      assert t[n..] == t[1..][n - 1..];
    } else {
      assert t[..0] == [];
    }
  }

  /** The integer part of an unsigned number. */
  function IntegerPart(t: bytes): bytes
    requires IntegerRest(t).Match?
  {
    t[..|t| - |IntegerRest(t).rest|]
  }

  lemma IntegerPartDigits(t: bytes)
    requires IntegerRest(t).Match?
    ensures AllDigits(IntegerPart(t))
  {
    if t[0] == ZERO {
      assert IntegerPart(t) == [ZERO];
    } else {
      SkippedDigits(t[1..]);
      var n := |t| - |SkipDigits(t[1..])|;
      assert t[..n] == [t[0]] + t[1..][..n - 1];
    }
  }

  function Pow2(n: nat): nat {
    if n == 0 then 1 else 2 * Pow2(n - 1)
  }

  /** From here on a number is rounded to infinity and strconv.ParseFloat reports a range error. */
  const FLOAT64_LIMIT: int := Pow2(1024) - Pow2(970)
  const FLOAT32_LIMIT: int := Pow2(128) - Pow2(103)

  predicate TooBig(t: bytes, limit: int) {
    IntegerRest(t).Match? && AllDigits(IntegerPart(t)) && Value(IntegerPart(t)) >= limit
  }

  /** Bytes that readNumberAsString takes. */
  predicate NumberByte(c: byte) {
    c == PLUS || c == MINUS || c == DOT || c == LOWER_E || c == UPPER_E || IsDigit(c)
  }

  function AfterNumber(t: bytes): (r: bytes)
    ensures |r| <= |t|
  {
    if t != [] && NumberByte(t[0]) then AfterNumber(t[1..]) else t
  }

  /**
   What is taken for a value: by the grammar, where with big false a number that does not fit a float64 is
   refused; or by the validating skipper, which also takes numbers that are malformed, strings with raw
   control characters, and null for a name.
   */
  datatype Mode = Rfc(big: bool) | Lenient

  function NumberRest(t: bytes, m: Mode): (r: Match)
    requires t != [] && NumberByte(t[0])
    ensures r.Match? ==> |r.rest| < |t|
  {
    if m.Lenient? then (if AfterNumber(t) == [] then NoMatch else Match(AfterNumber(t)))
    else if !m.big && TooBig(Unsigned(t), FLOAT64_LIMIT) then NoMatch
    else UnsignedRest(Unsigned(t))
  }

  function TextRest(t: bytes, m: Mode): (r: Match)
    ensures r.Match? ==> |r.rest| < |t|
  {
    if m.Rfc? then StringRest(t) else if BodyOf(t).Decoded? then Match(BodyOf(t).rest) else NoMatch
  }

  // ---- values: sections 2 to 2.3 ----

  const NULL: bytes := [110, 117, 108, 108]
  const TRUE: bytes := [116, 114, 117, 101]
  const FALSE: bytes := [102, 97, 108, 115, 101]

  function WordRest(t: bytes, w: bytes): (r: Match)
    ensures r.Match? ==> |r.rest| + |w| == |t|
  {
    if |w| <= |t| && t[..|w|] == w then Match(t[|w|..]) else NoMatch
  }

  /** A value without brackets, at the front of t. */
  function ScalarRest(t: bytes, m: Mode): (r: Match)
    requires t != []
    ensures r.Match? ==> |r.rest| < |t|
  {
    if t[0] == QUOTE then TextRest(t[1..], m)
    else if t[0] == LOWER_N then WordRest(t, NULL)
    else if t[0] == LOWER_T then WordRest(t, TRUE)
    else if t[0] == LOWER_F then WordRest(t, FALSE)
    else if t[0] == MINUS || IsDigit(t[0]) then NumberRest(t, m)
    else NoMatch
  }

  function Opening(braces: bool): byte {
    if braces then LBRACE else LBRACKET
  }

  function Closing(braces: bool): byte {
    if braces then RBRACE else RBRACKET
  }

  /** A member name. */
  function NameRest(u: bytes, m: Mode): (r: Match)
    ensures r.Match? ==> |r.rest| < |u|
  {
    if u == [] then NoMatch
    else if u[0] == QUOTE then TextRest(u[1..], m)
    else if m.Lenient? then WordRest(u, NULL)
    else NoMatch
  }

  /** A member name and its colon. */
  function KeyRest(t: bytes, m: Mode): (r: Match)
    ensures r.Match? ==> |r.rest| < |t|
  {
    var s := NameRest(Trim(t), m);
    if s.NoMatch? then NoMatch
    else
      var w := Trim(s.rest);
      if w != [] && w[0] == COLON then Match(w[1..]) else NoMatch
  }

  /** A value, after white space. */
  function ValueRest(t: bytes, m: Mode): (r: Match)
    ensures r.Match? ==> |r.rest| < |t|
    decreases |t|, 1
  {
    var u := Trim(t);
    if u == [] then NoMatch
    else if u[0] == LBRACKET then GroupRest(u[1..], false, m)
    else if u[0] == LBRACE then GroupRest(u[1..], true, m)
    else ScalarRest(u, m)
  }

  /** An array or an object after its opening bracket. */
  function GroupRest(t: bytes, braces: bool, m: Mode): (r: Match)
    ensures r.Match? ==> |r.rest| < |t|
    decreases |t|, 3
  {
    var u := Trim(t);
    if u != [] && u[0] == Closing(braces) then Match(u[1..]) else ItemsRest(t, braces, m)
  }

  /** One item or more, up to and including the closing bracket. */
  function ItemsRest(t: bytes, braces: bool, m: Mode): (r: Match)
    ensures r.Match? ==> |r.rest| < |t|
    decreases |t|, 2
  {
    var k := if braces then KeyRest(t, m) else Match(t);
    if k.NoMatch? then NoMatch
    else
      var v := ValueRest(k.rest, m);
      if v.NoMatch? then NoMatch
      else
        var w := Trim(v.rest);
        if w == [] then NoMatch
        else if w[0] == Closing(braces) then Match(w[1..])
        else if w[0] == COMMA then ItemsRest(w[1..], braces, m)
        else NoMatch
  }

  // ---- counting brackets ----

  /** The end of a string when nothing is checked but quotes and backslashes. */
  function StringEnd(t: bytes): (r: Match)
    ensures r.Match? ==> |r.rest| < |t|
    decreases |t|
  {
    if t == [] then NoMatch
    else if t[0] == QUOTE then Match(t[1..])
    else if t[0] == BACKSLASH then (if |t| < 2 then NoMatch else StringEnd(t[2..]))
    else StringEnd(t[1..])
  }

  /** Where the bracket count of one kind of bracket comes down to zero; strings are passed over. */
  function Brackets(t: bytes, level: nat, braces: bool): (r: Match)
    decreases |t|, 0
  {
    if t == [] || level == 0 then NoMatch
    else if t[0] == QUOTE then
      var s := StringEnd(t[1..]);
      if s.NoMatch? then NoMatch else Brackets(s.rest, level, braces)
    else if t[0] == Opening(braces) then Brackets(t[1..], level + 1, braces)
    else if t[0] == Closing(braces) then Down(t[1..], level, braces)
    else Brackets(t[1..], level, braces)
  }

  function Down(t: bytes, level: nat, braces: bool): Match
    requires level > 0
    decreases |t|, 1
  {
    if level == 1 then Match(t) else Brackets(t, level - 1, braces)
  }

  lemma {:induction false} StringEndAgrees(t: bytes)
    requires StringRest(t).Match?
    ensures StringEnd(t) == StringRest(t)
    decreases |t|
  {
    if t[0] == QUOTE {
    } else if t[0] == BACKSLASH {
      if t[1] == LOWER_U {
        StringEndAgrees(t[6..]);
        PastHex(t[2..]);
        assert t[2..][4..] == t[6..];
      } else {
        StringEndAgrees(t[2..]);
      }
    } else {
      StringEndAgrees(t[1..]);
    }
  }

  lemma PastHex(t: bytes)
    requires HasU4(t)
    ensures StringEnd(t) == StringEnd(t[4..])
  {
    assert t[1..][1..] == t[2..] && t[2..][1..] == t[3..] && t[3..][1..] == t[4..];
    assert StringEnd(t[1..]) == StringEnd(t[2..]);
    assert StringEnd(t[2..]) == StringEnd(t[3..]);
    assert StringEnd(t[3..]) == StringEnd(t[4..]);
  }

  /** What the decoder reads ends where the quotes and backslashes say. */
  lemma {:induction false} DecodedEndAgrees(t: bytes)
    requires BodyOf(t).Decoded?
    ensures StringEnd(t) == Match(BodyOf(t).rest)
    decreases |t|
  {
    hide RuneBytes, U4, PairBytes, HasU4;
    if t[0] == BACKSLASH {
      var e := EscapeOf(t[1..]);
      EscapePassed(t);
      DecodedEndAgrees(e.rest);
    } else if t[0] != QUOTE {
      DecodedEndAgrees(t[1..]);
    }
  }

  lemma EscapePassed(t: bytes)
    requires t != [] && t[0] == BACKSLASH && EscapeOf(t[1..]).Decoded?
    ensures StringEnd(t) == StringEnd(EscapeOf(t[1..]).rest)
  {
    hide RuneBytes, U4, PairBytes, StringEnd;
    PassPair(t);
    assert t[1..][1..] == t[2..];
    if t[1] == LOWER_U {
      PastHex(t[2..]);
      var w := t[6..];
      assert t[2..][4..] == w && t[1..][5..] == w;
      if IsSurrogate(U4(t[2..])) && w[0] == BACKSLASH {
        PassPair(w);
        assert w[1..][1..] == w[2..];
        if w[1] == LOWER_U {
          PastHex(w[2..]);
          assert w[2..][4..] == w[6..];
        }
      }
    }
  }

  lemma PassPair(t: bytes)
    requires |t| >= 2 && t[0] == BACKSLASH
    ensures StringEnd(t) == StringEnd(t[2..])
  {
  }

  lemma TextEndAgrees(t: bytes, m: Mode)
    requires TextRest(t, m).Match?
    ensures StringEnd(t) == TextRest(t, m)
  {
    hide StringEnd, StringRest, BodyOf;
    if m.Rfc? {
      StringEndAgrees(t);
    } else {
      DecodedEndAgrees(t);
    }
  }

  lemma {:induction false} BracketsAfterNumber(t: bytes, level: nat, braces: bool)
    requires level > 0
    ensures Brackets(AfterNumber(t), level, braces) == Brackets(t, level, braces)
  {
    if t != [] && NumberByte(t[0]) {
      BracketsAfterNumber(t[1..], level, braces);
    }
  }

  lemma {:induction false} BracketsTrim(t: bytes, level: nat, braces: bool)
    requires level > 0
    ensures Brackets(Trim(t), level, braces) == Brackets(t, level, braces)
  {
    if t != [] && IsSpace(t[0]) {
      BracketsTrim(t[1..], level, braces);
    }
  }

  lemma {:induction false} BracketsDigits(t: bytes, level: nat, braces: bool)
    requires level > 0
    ensures Brackets(SkipDigits(t), level, braces) == Brackets(t, level, braces)
  {
    if t != [] && IsDigit(t[0]) {
      BracketsDigits(t[1..], level, braces);
    }
  }

  predicate Inert(c: byte) {
    c != QUOTE && c != LBRACKET && c != RBRACKET && c != LBRACE && c != RBRACE
  }

  lemma BracketsByte(t: bytes, level: nat, braces: bool)
    requires t != [] && Inert(t[0]) && level > 0
    ensures Brackets(t, level, braces) == Brackets(t[1..], level, braces)
  {
  }

  lemma {:induction false} BracketsWord(t: bytes, w: bytes, level: nat, braces: bool)
    requires WordRest(t, w).Match? && level > 0 && forall i :: 0 <= i < |w| ==> Inert(w[i])
    ensures Brackets(t, level, braces) == Brackets(WordRest(t, w).rest, level, braces)
    decreases |w|
  {
    hide Brackets;
    if w == [] {
      assert t[0..] == t;
    } else {
      assert t[0] == t[..|w|][0];
      assert t[1..][..|w| - 1] == t[..|w|][1..];
      assert t[1..][|w| - 1..] == t[|w|..];
      BracketsByte(t, level, braces);
      BracketsWord(t[1..], w[1..], level, braces);
    }
  }

  lemma BracketsNumber(t: bytes, level: nat, braces: bool)
    requires UnsignedRest(t).Match? && level > 0
    ensures Brackets(t, level, braces) == Brackets(UnsignedRest(t).rest, level, braces)
  {
    hide Brackets, SkipDigits;
    BracketsByte(t, level, braces);
    var i := IntegerRest(t).rest;
    if t[0] != ZERO {
      BracketsDigits(t[1..], level, braces);
    }
    if i != [] && i[0] == DOT {
      BracketsByte(i, level, braces);
      BracketsDigits(i[1..], level, braces);
    }
  }

  lemma BracketsScalar(t: bytes, m: Mode, level: nat, braces: bool)
    requires t != [] && ScalarRest(t, m).Match? && level > 0
    ensures Brackets(t, level, braces) == Brackets(ScalarRest(t, m).rest, level, braces)
  {
    hide Brackets, UnsignedRest, TextRest, TooBig, AfterNumber;
    if t[0] == QUOTE {
      TextEndAgrees(t[1..], m);
      BracketsString(t, level, braces);
    } else if t[0] == LOWER_N {
      BracketsWord(t, NULL, level, braces);
    } else if t[0] == LOWER_T {
      BracketsWord(t, TRUE, level, braces);
    } else if t[0] == LOWER_F {
      BracketsWord(t, FALSE, level, braces);
    } else if m.Lenient? {
      BracketsAfterNumber(t, level, braces);
    } else {
      if t[0] == MINUS {
        BracketsByte(t, level, braces);
      }
      BracketsNumber(Unsigned(t), level, braces);
    }
  }

  lemma BracketsString(t: bytes, level: nat, braces: bool)
    requires t != [] && t[0] == QUOTE && StringEnd(t[1..]).Match? && level > 0
    ensures Brackets(t, level, braces) == Brackets(StringEnd(t[1..]).rest, level, braces)
  {
  }

  lemma BracketsKey(t: bytes, m: Mode, level: nat, braces: bool)
    requires KeyRest(t, m).Match? && level > 0
    ensures Brackets(t, level, braces) == Brackets(KeyRest(t, m).rest, level, braces)
  {
    hide Brackets, TextRest, Trim;
    var u := Trim(t);
    BracketsTrim(t, level, braces);
    if u[0] == QUOTE {
      TextEndAgrees(u[1..], m);
      BracketsString(u, level, braces);
    } else {
      BracketsWord(u, NULL, level, braces);
    }
    var s := NameRest(u, m).rest;
    BracketsTrim(s, level, braces);
    BracketsByte(Trim(s), level, braces);
  }

  /** Where the count goes on after a group has been closed. */
  function AfterGroup(rest: bytes, group: bool, level: nat, braces: bool): Match
    requires level > 0
  {
    if group == braces then Down(rest, level, braces) else Brackets(rest, level, braces)
  }

  lemma BracketsClose(t: bytes, group: bool, level: nat, braces: bool)
    requires t != [] && t[0] == Closing(group) && level > 0
    ensures Brackets(t, level, braces) == AfterGroup(t[1..], group, level, braces)
  {
  }

  lemma BracketsOpen(t: bytes, group: bool, level: nat, braces: bool)
    requires t != [] && t[0] == Opening(group) && level > 0
    ensures Brackets(t, level, braces) == Brackets(t[1..], if group == braces then level + 1 else level, braces)
  {
  }

  /** A value leaves the bracket count where it was. */
  lemma {:induction false} BracketsValue(t: bytes, m: Mode, level: nat, braces: bool)
    requires ValueRest(t, m).Match? && level > 0
    ensures Brackets(t, level, braces) == Brackets(ValueRest(t, m).rest, level, braces)
    decreases |t|, 1
  {
    hide Brackets, ScalarRest, GroupRest, Trim;
    var u := Trim(t);
    BracketsTrim(t, level, braces);
    if u[0] == LBRACKET || u[0] == LBRACE {
      var group := u[0] == LBRACE;
      BracketsOpen(u, group, level, braces);
      BracketsGroup(u[1..], group, m, if group == braces then level + 1 else level, braces);
    } else {
      BracketsScalar(u, m, level, braces);
    }
  }

  lemma {:induction false} BracketsGroup(t: bytes, group: bool, m: Mode, level: nat, braces: bool)
    requires GroupRest(t, group, m).Match? && level > 0
    ensures Brackets(t, level, braces) == AfterGroup(GroupRest(t, group, m).rest, group, level, braces)
    decreases |t|, 3
  {
    hide Brackets, ItemsRest, Trim, AfterGroup;
    var u := Trim(t);
    if u != [] && u[0] == Closing(group) {
      BracketsTrim(t, level, braces);
      BracketsClose(u, group, level, braces);
    } else {
      BracketsItems(t, group, m, level, braces);
    }
  }

  lemma {:induction false} BracketsItems(t: bytes, group: bool, m: Mode, level: nat, braces: bool)
    requires ItemsRest(t, group, m).Match? && level > 0
    ensures Brackets(t, level, braces) == AfterGroup(ItemsRest(t, group, m).rest, group, level, braces)
    decreases |t|, 2
  {
    hide Brackets, KeyRest, ValueRest, Trim, AfterGroup;
    if group {
      BracketsKey(t, m, level, braces);
    }
    var k := if group then KeyRest(t, m).rest else t;
    BracketsValue(k, m, level, braces);
    var v := ValueRest(k, m).rest;
    BracketsTrim(v, level, braces);
    var w := Trim(v);
    if w[0] == Closing(group) {
      BracketsClose(w, group, level, braces);
    } else {
      BracketsByte(w, level, braces);
      BracketsItems(w[1..], group, m, level, braces);
    }
  }

  /** On every well-formed array or object the bracket count ends where the grammar says. */
  lemma CountFindsEnd(t: bytes, braces: bool, m: Mode)
    requires GroupRest(t, braces, m).Match?
    ensures Brackets(t, 1, braces) == GroupRest(t, braces, m)
  {
    BracketsGroup(t, braces, m, 1, braces);
  }
}
