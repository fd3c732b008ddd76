/** JSON strings as text: what the encoders write and what the slow reader makes of it. */
module JsonString {
  import opened Bytes
  import opened Utf8

  const BACKSPACE: byte := 8
  const FORM_FEED: byte := 12

  // ---- reading ----

  predicate IsHex(c: byte) {
    IsDigit(c) || 97 <= c <= 102 || 65 <= c <= 70
  }

  function HexValue(c: byte): (v: nat)
    requires IsHex(c)
    ensures v < 16
  {
    if IsDigit(c) then c - 48 else if c >= 97 then c - 97 + 10 else c - 65 + 10
  }

  /** Four hexadecimal digits at the front of t. */
  predicate HasU4(t: bytes) {
    |t| >= 4 && IsHex(t[0]) && IsHex(t[1]) && IsHex(t[2]) && IsHex(t[3])
  }

  function U4(t: bytes): (v: nat)
    requires HasU4(t)
    ensures v < 0x10000
  {
    ((HexValue(t[0]) * 16 + HexValue(t[1])) * 16 + HexValue(t[2])) * 16 + HexValue(t[3])
  }

  /** What has been read and what is still to be read, or an error. */
  datatype Decoded = Decoded(text: bytes, rest: bytes) | Bad

  function Prepend(text: bytes, d: Decoded): Decoded {
    if d.Bad? then Bad else Decoded(text + d.text, d.rest)
  }

  /** The byte that an escape letter other than 'u' stands for; NUL if it is not one. */
  function Letter(c: byte): byte {
    if c == QUOTE || c == BACKSLASH || c == SLASH then c
    else if c == LOWER_B then BACKSPACE
    else if c == LOWER_F then FORM_FEED
    else if c == LOWER_N then NEWLINE
    else if c == LOWER_R then RETURN
    else if c == LOWER_T then TAB
    else NUL
  }

  function PlainEscape(t: bytes): Decoded
    requires t != []
  {
    if Letter(t[0]) == NUL then Bad else Decoded([Letter(t[0])], t[1..])
  }

  predicate IsHigh(r: int) {
    0xD800 <= r < 0xDC00
  }

  predicate IsLow(r: int) {
    0xDC00 <= r < 0xE000
  }

  /** Two escaped units: one rune if they are a surrogate pair, otherwise two. */
  function PairBytes(r: int, r2: int): bytes {
    if IsHigh(r) && IsLow(r2) then RuneBytes(0x10000 + (r - 0xD800) * 0x400 + (r2 - 0xDC00))
    else RuneBytes(r) + RuneBytes(r2)
  }

  /** After a surrogate: a second escape is taken along, whatever it is. */
  function AfterSurrogate(r: int, t: bytes): Decoded {
    if t == [] then Bad
    else if t[0] != BACKSLASH then Decoded(RuneBytes(r), t)
    else if |t| < 2 then Bad
    else if t[1] != LOWER_U then Prepend(RuneBytes(r), PlainEscape(t[1..]))
    else if !HasU4(t[2..]) then Bad
    else Decoded(PairBytes(r, U4(t[2..])), t[6..])
  }

  /** What stands after a backslash. */
  function EscapeOf(t: bytes): (d: Decoded)
    ensures d.Decoded? ==> |d.rest| < |t|
  {
    if t == [] then Bad
    else if t[0] != LOWER_U then PlainEscape(t)
    else if !HasU4(t[1..]) then Bad
    else
      var r := U4(t[1..]);
      if IsSurrogate(r) then AfterSurrogate(r, t[5..]) else Decoded(RuneBytes(r), t[5..])
  }

  /** What stands after the opening quote, up to and including the closing quote. */
  function BodyOf(t: bytes): (d: Decoded)
    ensures d.Decoded? ==> |d.rest| < |t|
    decreases |t|
  {
    if t == [] then Bad
    else if t[0] == QUOTE then Decoded([], t[1..])
    else if t[0] == BACKSLASH then
      var e := EscapeOf(t[1..]);
      if e.Bad? then Bad else Prepend(e.text, BodyOf(e.rest))
    else Prepend([t[0]], BodyOf(t[1..]))
  }

  /** No raw control character before the closing quote or the first backslash: what the fast reader insists on. */
  predicate Clean(t: bytes) {
    t == [] || t[0] == QUOTE || t[0] == BACKSLASH || (t[0] >= SPACE && Clean(t[1..]))
  }

  // ---- writing ----

  function HexDigit(n: nat): (c: byte)
    requires n < 16
    ensures IsHex(c) && HexValue(c) == n
  {
    if n < 10 then 48 + n else 97 + n - 10
  }

  /** Bytes that are written as they are, with or without protection for HTML. */
  predicate Safe(c: byte, html: bool) {
    c >= SPACE && c != QUOTE && c != BACKSLASH && (html ==> c != 38 && c != 60 && c != 62)
  }

  /** The escape of a byte below 128 that is not safe. */
  function Escape(c: byte): bytes {
    if c == BACKSLASH || c == QUOTE then [BACKSLASH, c]
    else if c == NEWLINE then [BACKSLASH, LOWER_N]
    else if c == RETURN then [BACKSLASH, LOWER_R]
    else if c == TAB then [BACKSLASH, LOWER_T]
    else [BACKSLASH, LOWER_U, ZERO, ZERO, HexDigit(c / 16), HexDigit(c % 16)]
  }

  function Encoded(s: bytes): bytes {
    if s == [] then []
    else (if Safe(s[0], false) then [s[0]] else Escape(s[0])) + Encoded(s[1..])
  }

  const REPLACEMENT_ESCAPE: bytes := [BACKSLASH, LOWER_U, 102, 102, 102, 100]

  /** U+2028 and U+2029. */
  predicate IsSeparator(s: bytes) {
    SequenceSize(s) > 0 && (CodePoint(s) == 0x2028 || CodePoint(s) == 0x2029)
  }

  /** The first unit of a text and its size: a byte below 128, a well-formed sequence, or one byte that is neither. */
  function UnitSize(s: bytes): (n: nat)
    requires s != []
    ensures 1 <= n <= |s|
  {
    if SequenceSize(s) == 0 then 1 else SequenceSize(s)
  }

  function HtmlUnit(s: bytes): bytes
    requires s != []
  {
    if s[0] < 0x80 then (if Safe(s[0], true) then [s[0]] else Escape(s[0]))
    else if SequenceSize(s) == 0 then REPLACEMENT_ESCAPE
    else if IsSeparator(s) then [BACKSLASH, LOWER_U, 50, 48, 50, HexDigit(CodePoint(s) % 16)]
    else s[..SequenceSize(s)]
  }

  function HtmlEncoded(s: bytes): bytes
    decreases |s|
  {
    if s == [] then [] else HtmlUnit(s) + HtmlEncoded(s[UnitSize(s)..])
  }

  /** The text with every byte that is not part of a well-formed sequence replaced. */
  function Sanitized(s: bytes): bytes
    decreases |s|
  {
    if s == [] then []
    else (if SequenceSize(s) == 0 then RuneBytes(REPLACEMENT) else s[..UnitSize(s)]) + Sanitized(s[UnitSize(s)..])
  }

  // ---- round trips ----

  lemma ReadSafe(c: byte, t: bytes)
    requires c != QUOTE && c != BACKSLASH
    ensures BodyOf([c] + t) == Prepend([c], BodyOf(t))
  {
    assert ([c] + t)[1..] == t;
  }

  lemma ReadLetter(c: byte, t: bytes)
    requires c != LOWER_U && Letter(c) != NUL
    ensures BodyOf([BACKSLASH, c] + t) == Prepend([Letter(c)], BodyOf(t))
  {
    var w := [BACKSLASH, c] + t;
    assert w[1..] == [c] + t && ([c] + t)[1..] == t;
  }

  /** An escaped unit that is not a surrogate is read as its rune. */
  lemma ReadUnit(u: bytes, t: bytes)
    requires |u| == 4 && HasU4(u) && !IsSurrogate(U4(u))
    ensures BodyOf([BACKSLASH, LOWER_U] + u + t) == Prepend(RuneBytes(U4(u)), BodyOf(t))
  {
    hide RuneBytes;
    var w := [BACKSLASH, LOWER_U] + u + t;
    assert w[1..] == [LOWER_U] + u + t;
    assert w[1..][1..] == u + t;
    assert w[1..][5..] == t;
    assert U4(u + t) == U4(u);
  }

  /** Reading an escape gives the byte it was written for. */
  lemma ReadEscape(c: byte, t: bytes)
    requires c < 0x80
    ensures BodyOf(Escape(c) + t) == Prepend([c], BodyOf(t))
  {
    hide BodyOf;
    if c == BACKSLASH || c == QUOTE {
      ReadLetter(c, t);
    } else if c == NEWLINE {
      ReadLetter(LOWER_N, t);
    } else if c == RETURN {
      ReadLetter(LOWER_R, t);
    } else if c == TAB {
      ReadLetter(LOWER_T, t);
    } else {
      var u := [ZERO, ZERO, HexDigit(c / 16), HexDigit(c % 16)];
      assert Escape(c) == [BACKSLASH, LOWER_U] + u;
      assert U4(u) == c;
      ReadUnit(u, t);
    }
  }

  lemma PrependTwice(a: bytes, b: bytes, d: Decoded)
    ensures Prepend(a, Prepend(b, d)) == Prepend(a + b, d)
  {
    if d.Decoded? {
      Associate(a, b, d.text);
    }
  }

  lemma ReadQuote(t: bytes)
    ensures BodyOf([QUOTE] + t) == Decoded([], t)
  {
    assert ([QUOTE] + t)[1..] == t;
  }

  /** Reading what WriteString wrote gives the text back, for every byte string, and stops after it. */
  lemma {:induction false} EncodedRoundTrip(s: bytes, suffix: bytes)
    ensures BodyOf(Encoded(s) + ([QUOTE] + suffix)) == Decoded(s, suffix)
    decreases |s|
  {
    hide BodyOf, Escape;
    var tail := [QUOTE] + suffix;
    if s == [] {
      assert Encoded(s) + tail == tail;
      ReadQuote(suffix);
    } else {
      EncodedRoundTrip(s[1..], suffix);
      var t := Encoded(s[1..]) + tail;
      assert [s[0]] + s[1..] == s;
      if Safe(s[0], false) {
        Associate([s[0]], Encoded(s[1..]), tail);
        ReadSafe(s[0], t);
      } else {
        Associate(Escape(s[0]), Encoded(s[1..]), tail);
        ReadEscape(s[0], t);
      }
    }
  }

  /** What WriteString writes has no raw control characters. */
  lemma {:induction false} EncodedClean(s: bytes, suffix: bytes)
    ensures Clean(Encoded(s) + ([QUOTE] + suffix))
  {
    hide Clean, Encoded, Escape;
    var tail := [QUOTE] + suffix;
    EncodedStep(s, tail);
    if s == [] {
      CleanStart(tail);
    } else {
      var rest := Encoded(s[1..]) + tail;
      EncodedClean(s[1..], suffix);
      if Safe(s[0], false) {
        CleanRun([s[0]], rest);
      } else {
        EscapeStart(s[0], rest);
        CleanStart(Escape(s[0]) + rest);
      }
    }
  }

  lemma EncodedStep(s: bytes, tail: bytes)
    ensures s == [] ==> Encoded(s) + tail == tail
    ensures s != [] ==>
      Encoded(s) + tail == (if Safe(s[0], false) then [s[0]] else Escape(s[0])) + (Encoded(s[1..]) + tail)
  {
    hide Escape;
    if s != [] {
      Associate(if Safe(s[0], false) then [s[0]] else Escape(s[0]), Encoded(s[1..]), tail);
    }
  }

  lemma EscapeStart(c: byte, rest: bytes)
    ensures Escape(c) + rest != [] && (Escape(c) + rest)[0] == BACKSLASH
  {
  }

  lemma {:induction false} ReadPlain(a: bytes, t: bytes)
    requires forall i :: 0 <= i < |a| ==> a[i] != QUOTE && a[i] != BACKSLASH
    ensures BodyOf(a + t) == Prepend(a, BodyOf(t))
    decreases |a|
  {
    hide BodyOf;
    if a == [] {
      assert a + t == t;
      PrependNothing(BodyOf(t));
    } else {
      ReadPlain(a[1..], t);
      assert a + t == [a[0]] + (a[1..] + t);
      ReadSafe(a[0], a[1..] + t);
      PrependTwice([a[0]], a[1..], BodyOf(t));
      assert [a[0]] + a[1..] == a;
    }
  }

  lemma PrependNothing(d: Decoded)
    ensures Prepend([], d) == d
  {
    if d.Decoded? {
      assert [] + d.text == d.text;
    }
  }

  /** The bytes of a longer sequence are all 128 or more. */
  lemma SequenceBytes(s: bytes)
    requires s != [] && s[0] >= 0x80
    ensures forall i :: 0 <= i < SequenceSize(s) ==> s[i] >= 0x80
  {
  }

  function SanitizedUnit(s: bytes): bytes
    requires s != []
  {
    if SequenceSize(s) == 0 then RuneBytes(REPLACEMENT) else s[..UnitSize(s)]
  }

  lemma ReadHtmlUnit(s: bytes, t: bytes)
    requires s != []
    ensures BodyOf(HtmlUnit(s) + t) == Prepend(SanitizedUnit(s), BodyOf(t))
  {
    hide BodyOf, Escape, RuneBytes;
    if s[0] < 0x80 {
      assert s[..1] == [s[0]];
      if Safe(s[0], true) {
        ReadSafe(s[0], t);
      } else {
        ReadEscape(s[0], t);
      }
    } else if SequenceSize(s) == 0 {
      var u: bytes := [102, 102, 102, 100];
      assert REPLACEMENT_ESCAPE == [BACKSLASH, LOWER_U] + u;
      ReadUnit(u, t);
    } else if IsSeparator(s) {
      SeparatorRune(s);
      var u: bytes := [50, 48, 50, HexDigit(CodePoint(s) % 16)];
      assert HtmlUnit(s) == [BACKSLASH, LOWER_U] + u;
      ReadUnit(u, t);
    } else {
      SequenceBytes(s);
      ReadPlain(s[..SequenceSize(s)], t);
    }
  }

  lemma SeparatorRune(s: bytes)
    requires IsSeparator(s)
    ensures RuneBytes(CodePoint(s)) == s[..SequenceSize(s)]
    ensures U4([50, 48, 50, HexDigit(CodePoint(s) % 16)]) == CodePoint(s)
  {
    hide SequenceSize, CodePoint;
    RuneUnique(s);
  }

  /** Reading the HTML-escaped text gives the text with its malformed bytes replaced. */
  lemma {:induction false} HtmlRoundTrip(s: bytes, suffix: bytes)
    ensures BodyOf(HtmlEncoded(s) + ([QUOTE] + suffix)) == Decoded(Sanitized(s), suffix)
    decreases |s|
  {
    hide BodyOf, HtmlUnit, UnitSize, SequenceSize, RuneBytes;
    var tail := [QUOTE] + suffix;
    if s == [] {
      assert HtmlEncoded(s) + tail == tail;
      ReadQuote(suffix);
    } else {
      var rest := s[UnitSize(s)..];
      HtmlRoundTrip(rest, suffix);
      Associate(HtmlUnit(s), HtmlEncoded(rest), tail);
      ReadHtmlUnit(s, HtmlEncoded(rest) + tail);
    }
  }

  lemma {:induction false} CleanRun(run: bytes, t: bytes)
    requires forall i :: 0 <= i < |run| ==> run[i] != QUOTE && run[i] != BACKSLASH && run[i] >= SPACE
    ensures Clean(run + t) <==> Clean(t)
    decreases |run|
  {
    if run == [] {
      assert run + t == t;
    } else {
      assert (run + t)[1..] == run[1..] + t;
      CleanRun(run[1..], t);
    }
  }

  lemma {:induction false} CleanPrefix(a: bytes, b: bytes)
    ensures Clean(a + b) ==> Clean(a)
    decreases |a|
  {
    if a != [] && a[0] != QUOTE && a[0] != BACKSLASH {
      assert (a + b)[1..] == a[1..] + b;
      CleanPrefix(a[1..], b);
    }
  }

  lemma CleanHead(c: byte, t: bytes)
    requires c == QUOTE || c == BACKSLASH || c < SPACE
    ensures Clean([c] + t) <==> c == QUOTE || c == BACKSLASH
  {
  }

  lemma NothingClean()
    ensures Clean([])
  {
  }

  /** What WriteStringWithHTMLEscaped writes has no raw control characters either. */
  lemma {:induction false} HtmlClean(s: bytes, suffix: bytes)
    ensures Clean(HtmlEncoded(s) + ([QUOTE] + suffix))
    decreases |s|
  {
    hide Clean, SequenceSize, CodePoint;
    var tail := [QUOTE] + suffix;
    if s == [] {
      assert HtmlEncoded(s) + tail == tail;
      CleanStart(tail);
    } else {
      var rest := s[UnitSize(s)..];
      HtmlClean(rest, suffix);
      Associate(HtmlUnit(s), HtmlEncoded(rest), tail);
      UnitClean(s, HtmlEncoded(rest) + tail);
    }
  }

  lemma CleanStart(t: bytes)
    requires t != [] && (t[0] == QUOTE || t[0] == BACKSLASH)
    ensures Clean(t)
  {
  }

  lemma UnitClean(s: bytes, t: bytes)
    requires s != [] && Clean(t)
    ensures Clean(HtmlUnit(s) + t)
  {
    hide Clean, SequenceSize, CodePoint;
    if s[0] < 0x80 && Safe(s[0], true) {
      CleanRun([s[0]], t);
    } else if s[0] >= 0x80 && SequenceSize(s) > 0 && !IsSeparator(s) {
      SequenceBytes(s);
      CleanRun(s[..SequenceSize(s)], t);
    } else {
      CleanStart(HtmlUnit(s) + t);
    }
  }

  /** Well-formed text is unchanged, and only well-formed text. */
  lemma {:induction false} SanitizedSame(s: bytes)
    ensures |Sanitized(s)| >= |s|
    ensures Sanitized(s) == s <==> ValidUtf8(s)
    ensures !ValidUtf8(s) ==> |Sanitized(s)| > |s|
    decreases |s|
  {
    hide SequenceSize;
    if s != [] {
      var n := UnitSize(s);
      SanitizedSame(s[n..]);
      assert s == s[..n] + s[n..];
    }
  }

  /** What is read is always well-formed. */
  lemma {:induction false} SanitizedValid(s: bytes)
    ensures ValidUtf8(Sanitized(s))
    decreases |s|
  {
    hide SequenceSize, RuneBytes;
    if s != [] {
      var n := UnitSize(s);
      var unit, rest := SanitizedUnit(s), Sanitized(s[n..]);
      SanitizedValid(s[n..]);
      UnitWellFormed(s);
      SequencePrefix(unit, rest);
      assert (unit + rest)[|unit|..] == rest;
    }
  }

  lemma UnitWellFormed(s: bytes)
    requires s != []
    ensures SequenceSize(SanitizedUnit(s)) == |SanitizedUnit(s)| > 0
  {
  }
}
