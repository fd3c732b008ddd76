/** Reading strings and words with the cursor: the fast path in the buffer and the slow path across refills. */
module JsonRead {
  import opened Bytes
  import opened Utf8
  import opened JsonString
  import opened JsonStream
  import opened JsonIterator

  /** The value of the first i hexadecimal digits. */
  function HexPrefix(t: bytes, i: nat): (v: nat)
    requires i <= |t| && i <= 4 && forall j :: 0 <= j < i ==> IsHex(t[j])
    ensures i < 4 ==> v < 0x1000
    ensures i < 3 ==> v < 0x100
    ensures i < 2 ==> v < 0x10
    ensures i == 0 ==> v == 0
  {
    if i == 0 then 0 else HexPrefix(t, i - 1) * 16 + HexValue(t[i - 1])
  }

  lemma HexPrefixU4(t: bytes)
    requires HasU4(t)
    ensures U4(t) == HexPrefix(t, 4)
  {
    assert HexPrefix(t, 2) == HexValue(t[0]) * 16 + HexValue(t[1]);
  }

  method ReadU4(it: Iterator) returns (r: nat)
    requires it.Valid() && it.error.NoError?
    modifies it
    ensures it.Valid() && |it.Rest()| <= |old(it.Rest())|
    ensures HasU4(old(it.Rest())) ==>
      it.error.NoError? && r == U4(old(it.Rest())) && |old(it.Rest())| >= 4 && it.Rest() == old(it.Rest())[4..]
    ensures !HasU4(old(it.Rest())) ==> !it.error.NoError? && !IsSurrogate(r)
  {
    ghost var t := it.Rest();
    r := 0;
    var i := 0;
    while i < 4
      invariant 0 <= i <= 4 && i <= |t| && it.Valid() && it.error.NoError? && it.Rest() == t[i..]
      invariant forall j :: 0 <= j < i ==> IsHex(t[j])
      invariant r == HexPrefix(t, i)
    {
      var c := it.ReadByte();
      if !it.error.NoError? {
        return;
      }
      assert t[i..][1..] == t[i + 1..];
      if IsHex(c) {
        r := r * 16 + HexValue(c);
      } else {
        it.ReportError();
        return;
      }
      i := i + 1;
    }
    HexPrefixU4(t);
  }

  /** The cursor stands where a decoding function stopped, and there is an error exactly when it failed. */
  ghost predicate Follows(it: Iterator, d: Decoded, out: bytes, str: bytes)
    requires it.Valid()
    reads it
  {
    match d
    case Decoded(text, rest) => it.error.NoError? && it.Rest() == rest && out == str + text
    case Bad => !it.error.NoError?
  }

  /** The escape whose letter c has been read; its bytes are appended. */
  method ReadEscapedChar(it: Iterator, c: byte, str: bytes) returns (out: bytes)
    requires it.Valid() && (it.error.NoError? || c == NUL)
    modifies it
    ensures it.Valid() && |it.Rest()| <= |old(it.Rest())|
    ensures !old(it.error).NoError? ==> !it.error.NoError?
    ensures old(it.error).NoError? ==> Follows(it, EscapeOf([c] + old(it.Rest())), out, str)
    decreases if c == LOWER_U then 2 else 0
  {
    hide RuneBytes, U4, HasU4;
    ghost var t := it.Rest();
    assert ([c] + t)[1..] == t;
    if c == LOWER_U {
      var r := ReadU4(it);
      UnitEscape(t);
      if IsSurrogate(r) {
        out := ReadAfterSurrogate(it, r, str);
      } else {
        out := AppendRune(str, r);
      }
    } else if Letter(c) != NUL {
      out := str + [Letter(c)];
    } else {
      it.ReportError();
      out := [];
    }
  }

  lemma UnitEscape(t: bytes)
    ensures !HasU4(t) ==> EscapeOf([LOWER_U] + t) == Bad
    ensures HasU4(t) && IsSurrogate(U4(t)) ==> EscapeOf([LOWER_U] + t) == AfterSurrogate(U4(t), t[4..])
    ensures HasU4(t) && !IsSurrogate(U4(t)) ==> EscapeOf([LOWER_U] + t) == Decoded(RuneBytes(U4(t)), t[4..])
  {
    hide RuneBytes, U4, AfterSurrogate;
    var w := [LOWER_U] + t;
    assert w[1..] == t;
    if HasU4(t) {
      assert w[5..] == t[4..];
    }
  }

  method ReadAfterSurrogate(it: Iterator, r: nat, str: bytes) returns (out: bytes)
    requires it.Valid() && it.error.NoError?
    modifies it
    ensures it.Valid() && |it.Rest()| <= |old(it.Rest())|
    ensures Follows(it, AfterSurrogate(r, old(it.Rest())), out, str)
    decreases 1
  {
    hide RuneBytes, U4, HasU4, PairBytes;
    ghost var t := it.Rest();
    var c := it.ReadByte();
    if !it.error.NoError? {
      return [];
    }
    assert t == [c] + t[1..];
    if c != BACKSLASH {
      it.UnreadByte();
      out := AppendRune(str, r);
      return;
    }
    c := it.ReadByte();
    if !it.error.NoError? {
      return [];
    }
    assert t[1..] == [c] + t[2..];
    if c != LOWER_U {
      out := AppendRune(str, r);
      out := ReadEscapedChar(it, c, out);
      PlainAgain(t[1..], str, RuneBytes(r));
      return;
    }
    var r2 := ReadU4(it);
    if !it.error.NoError? {
      return [];
    }
    assert t[2..][4..] == t[6..];
    out := AppendPair(str, r, r2);
  }

  lemma PlainAgain(t: bytes, str: bytes, rune: bytes)
    requires t != [] && t[0] != LOWER_U
    ensures EscapeOf(t) == PlainEscape(t)
    ensures PlainEscape(t).Decoded? ==> str + rune + PlainEscape(t).text == str + (rune + PlainEscape(t).text)
  {
    if PlainEscape(t).Decoded? {
      Associate(str, rune, PlainEscape(t).text);
    }
  }

  /** utf16.DecodeRune gives the replacement character for anything but a surrogate pair. */
  method AppendPair(str: bytes, r: nat, r2: nat) returns (out: bytes)
    ensures out == str + PairBytes(r, r2)
  {
    hide RuneBytes;
    if IsHigh(r) && IsLow(r2) {
      out := AppendRune(str, 0x10000 + (r - 0xD800) * 0x400 + (r2 - 0xDC00));
    } else {
      out := AppendRune(str, r);
      out := AppendRune(out, r2);
      Associate(str, RuneBytes(r), RuneBytes(r2));
    }
  }

  /** The slow path reads the body of a string, whatever refills happen in between. */
  method ReadStringSlowPath(it: Iterator) returns (r: bytes)
    requires it.Valid()
    modifies it
    ensures it.Valid() && |it.Rest()| <= |old(it.Rest())|
    ensures !old(it.error).NoError? ==> !it.error.NoError?
    ensures !it.error.NoError? ==> it.error.Failure?
    ensures old(it.error).NoError? ==> Follows(it, BodyOf(old(it.Rest())), r, [])
  {
    hide EscapeOf, BodyOf;
    ghost var t := it.Rest();
    var str: bytes := [];
    PrependNothing(BodyOf(t));
    while it.error.NoError?
      invariant it.Valid() && |it.Rest()| <= |t|
      invariant it.error.NoError? ==> BodyOf(t) == Prepend(str, BodyOf(it.Rest()))
      invariant !it.error.NoError? && old(it.error).NoError? ==> BodyOf(t) == Bad
      invariant !old(it.error).NoError? ==> !it.error.NoError?
      decreases |it.Rest()|, if it.error.NoError? then 1 else 0
    {
      BodyStep(it.Rest());
      ghost var u := it.Rest();
      var c := it.ReadByte();
      if c == QUOTE {
        assert str + [] == str && [] + str == str;
        return str;
      }
      if c == BACKSLASH {
        c := it.ReadByte();
        ghost var v := it.Rest();
        ghost var before := str;
        assert |u| > 1 ==> u[1..] == [c] + v;
        str := ReadEscapedChar(it, c, str);
        if it.error.NoError? {
          PrependTwice(before, EscapeOf(u[1..]).text, BodyOf(it.Rest()));
        }
      } else {
        PrependTwice(str, [c], BodyOf(it.Rest()));
        str := str + [c];
      }
    }
    it.ReportError();
    return [];
  }

  lemma BodyStep(t: bytes)
    ensures BodyOf(t) ==
      if t == [] then Bad
      else if t[0] == QUOTE then Decoded([], t[1..])
      else if t[0] == BACKSLASH then
        if EscapeOf(t[1..]).Bad? then Bad else Prepend(EscapeOf(t[1..]).text, BodyOf(EscapeOf(t[1..]).rest))
      else Prepend([t[0]], BodyOf(t[1..]))
    ensures EscapeOf([]) == Bad
  {
  }

  // ---- words ----

  predicate StartsWith(t: bytes, w: bytes) {
    |w| <= |t| && t[..|w|] == w
  }

  /** skipThreeBytes and skipFourBytes: the rest of a word, byte by byte. */
  method SkipBytes(it: Iterator, w: bytes)
    requires it.Valid() && NUL !in w
    modifies it
    ensures it.Valid() && |it.Rest()| <= |old(it.Rest())|
    ensures it.error.NoError? <==> old(it.error).NoError? && StartsWith(old(it.Rest()), w)
    ensures it.error.NoError? ==> it.Rest() == old(it.Rest())[|w|..]
    ensures it.error == if StartsWith(old(it.Rest()), w) then old(it.error) else Failure
  {
    ghost var t := it.Rest();
    var i := 0;
    while i < |w|
      invariant 0 <= i <= |w| && it.Valid() && it.error == old(it.error)
      invariant StartsWith(t, w[..i]) && it.Rest() == t[i..]
    {
      var c := it.ReadByte();
      if c != w[i] {
        Differs(t, w, i);
        it.ReportError();
        return;
      }
      assert t[..i + 1] == t[..i] + [c] && w[..i + 1] == w[..i] + [c];
      assert t[i..][1..] == t[i + 1..];
      i := i + 1;
    }
    assert w[..i] == w;
  }

  lemma Differs(t: bytes, w: bytes, i: nat)
    requires i < |w| && (i < |t| ==> t[i] != w[i])
    ensures !StartsWith(t, w)
  {
    if |w| <= |t| {
      assert t[..|w|][i] == t[i];
    }
  }

  const ULL: bytes := [117, 108, 108]

  // ---- the fast path ----

  datatype Fast = Closed(end: nat) | Control | Undecided

  /** The scan of the buffer after an opening quote: a closing quote, a control character, or neither. */
  method FastScan(it: Iterator) returns (r: Fast)
    requires it.Valid()
    ensures r.Control? <==> !Clean(it.Window())
    ensures r.Closed? ==>
      && it.head <= r.end < it.tail
      && BodyOf(it.Rest()) == Decoded(it.buf[it.head..r.end], it.buf[r.end + 1..it.tail] + Flat(it.chunks))
  {
    hide BodyOf, Clean;
    var i := it.head;
    while i < it.tail
      invariant it.head <= i <= it.tail
      invariant forall j :: it.head <= j < i ==> it.buf[j] != QUOTE && it.buf[j] != BACKSLASH && it.buf[j] >= SPACE
    {
      var c := it.buf[i];
      if c == QUOTE || c == BACKSLASH || c < SPACE {
        ghost var run, rest := it.buf[it.head..i], it.buf[i + 1..it.tail] + Flat(it.chunks);
        assert it.Rest() == run + ([c] + rest);
        ReadPlain(run, [c] + rest);
        assert it.Window() == run + ([c] + it.buf[i + 1..it.tail]);
        CleanRun(run, [c] + it.buf[i + 1..it.tail]);
        CleanHead(c, it.buf[i + 1..it.tail]);
        if c == QUOTE {
          ReadQuote(rest);
          assert run + [] == run;
          return Closed(i);
        } else if c == BACKSLASH {
          return Undecided;
        } else {
          return Control;
        }
      }
      i := i + 1;
    }
    assert it.Window() + [] == it.Window();
    CleanRun(it.Window(), []);
    NothingClean();
    return Undecided;
  }

  /**
   ReadString on a text that starts, after white space, with a quote: there is an error if and only if the
   slow path would fail or a raw control character stands in the buffer before a quote or a backslash, and
   without an error the result is what the slow path alone would read.
   */
  method ReadString(it: Iterator) returns (r: bytes)
    requires it.Valid()
    modifies it
    ensures it.Valid() && |it.Rest()| <= |old(it.Rest())|
    ensures it.error.NoError? || it.error.Failure? || it.error == old(it.error)
    ensures !old(it.error).NoError? ==> !it.error.NoError?
    ensures Trim(old(it.Rest())) == [] ==> it.error.Failure?
    ensures old(it.error).NoError? && StartsWith(Trim(old(it.Rest())), [QUOTE]) ==>
      && (it.error.NoError? <==>
          BodyOf(Trim(old(it.Rest()))[1..]).Decoded? && Clean(AfterToken(old(it.Window()), old(it.chunks))))
      && (it.error.NoError? ==> Follows(it, BodyOf(Trim(old(it.Rest()))[1..]), r, []))
      && (Clean(Trim(old(it.Rest()))[1..]) ==> Clean(AfterToken(old(it.Window()), old(it.chunks))))
      && (!it.hasReader ==> AfterToken(old(it.Window()), old(it.chunks)) == Trim(old(it.Rest()))[1..])
    ensures old(it.error).NoError? && StartsWith(Trim(old(it.Rest())), [LOWER_N] + ULL) ==>
      it.error.NoError? && r == [] && it.Rest() == Trim(old(it.Rest()))[4..]
    ensures it.error.NoError? ==>
      StartsWith(Trim(old(it.Rest())), [QUOTE]) || StartsWith(Trim(old(it.Rest())), [LOWER_N] + ULL)
  {
    hide BodyOf, Trim, Clean, Flat, AfterToken;
    ghost var t := Trim(it.Rest());
    var c := it.NextToken();
    if t != [] {
      assert t == [c] + t[1..];
    }
    if c == QUOTE {
      CleanWindow(it);
      var fast := FastScan(it);
      match fast {
        case Closed(end) =>
          r := it.buf[it.head..end];
          it.head := end + 1;
          assert [] + r == r;
        case Control =>
          it.ReportError();
          r := [];
        case Undecided =>
          r := ReadStringSlowPath(it);
      }
    } else if c == LOWER_N {
      NullWord(t);
      SkipBytes(it, ULL);
      r := [];
    } else {
      it.ReportError();
      r := [];
    }
  }

  /** The buffer holds the front of the text, and all of it if there is no reader. */
  lemma CleanWindow(it: Iterator)
    requires it.Valid()
    ensures Clean(it.Rest()) ==> Clean(it.Window())
    ensures !it.hasReader ==> it.Window() == it.Rest()
  {
    hide Clean;
    CleanPrefix(it.Window(), Flat(it.chunks));
  }

  lemma NullWord(t: bytes)
    requires t != [] && t[0] == LOWER_N
    ensures StartsWith(t, [LOWER_N] + ULL) <==> StartsWith(t[1..], ULL)
    ensures StartsWith(t, [LOWER_N] + ULL) ==> t[4..] == t[1..][3..]
  {
    if |t| >= 4 {
      assert t[..4] == [t[0]] + t[1..][..3];
      assert ([LOWER_N] + ULL)[1..] == ULL;
    }
  }

  /**
   A raw control character is refused only by the fast path: the string of one tab, given whole, is an
   error; given in two reads, the first of which ends after the opening quote, it is read.
   */
  method ControlCharacter() returns (whole: Iterator, cut: Iterator, r: bytes)
    ensures whole.Valid() && whole.error.Failure?
    ensures cut.Valid() && cut.error.NoError? && r == [TAB] && cut.Rest() == []
  {
    var t := [QUOTE, TAB, QUOTE];
    assert t[1..] == [TAB, QUOTE];
    RawTab();
    whole := new Iterator.ParseBytes(t);
    var _ := ReadString(whole);
    TwoReads();
    cut := new Iterator.Parse([[QUOTE], [TAB, QUOTE]], 2, EndOfInput);
    r := ReadString(cut);
  }

  lemma RawTab()
    ensures Trim([QUOTE, TAB, QUOTE]) == [QUOTE, TAB, QUOTE]
    ensures BodyOf([TAB, QUOTE]) == Decoded([TAB], []) && !Clean([TAB, QUOTE])
  {
    ReadSafe(TAB, [QUOTE]);
    ReadQuote([]);
    assert [TAB] + [QUOTE] == [TAB, QUOTE] && [QUOTE] + [] == [QUOTE] && [TAB] + [] == [TAB];
  }

  lemma TwoReads()
    ensures Flat([[QUOTE], [TAB, QUOTE]]) == [QUOTE, TAB, QUOTE]
    ensures AfterToken([], [[QUOTE], [TAB, QUOTE]]) == [] && Clean([])
  {
    assert [[QUOTE], [TAB, QUOTE]][1..] == [[TAB, QUOTE]] && [[TAB, QUOTE]][1..] == [];
    assert Flat([[TAB, QUOTE]]) == [TAB, QUOTE];
    assert Trim([QUOTE]) == [QUOTE];
    assert AfterToken([QUOTE], [[TAB, QUOTE]]) == [];
  }

  /** The text of a string value with or without protection for HTML, and what is read back. */
  function EncodedAs(s: bytes, html: bool): bytes {
    if html then HtmlEncoded(s) else Encoded(s)
  }

  function ReadAs(s: bytes, html: bool): bytes {
    if html then Sanitized(s) else s
  }

  lemma AnyRoundTrip(s: bytes, html: bool, suffix: bytes)
    ensures var t := EncodedAs(s, html) + ([QUOTE] + suffix); BodyOf(t) == Decoded(ReadAs(s, html), suffix) && Clean(t)
  {
    hide BodyOf, Clean, Encoded, HtmlEncoded, Sanitized;
    if html {
      HtmlRoundTrip(s, suffix);
      HtmlClean(s, suffix);
    } else {
      EncodedRoundTrip(s, suffix);
      EncodedClean(s, suffix);
    }
  }

  /**
   The round trip of strings over every cutting into reads: what WriteString wrote is read back by
   ReadString whatever the chunks are, and the bytes after it are left in the reader. What
   WriteStringWithHTMLEscaped wrote is read back with its malformed bytes replaced.
   */
  method ReadBack(s: bytes, html: bool, suffix: bytes, chunks: seq<bytes>, size: nat, atEnd: Error)
    returns (r: bytes, it: Iterator)
    requires Flat(chunks) == Quoted(EncodedAs(s, html)) + suffix && !atEnd.NoError?
    requires forall i :: 0 <= i < |chunks| ==> |chunks[i]| <= size
    ensures it.Valid() && it.error.NoError? && r == ReadAs(s, html) && it.Rest() == suffix
  {
    hide BodyOf, Clean, EncodedAs, ReadAs;
    it := new Iterator.Parse(chunks, size, atEnd);
    var body := EncodedAs(s, html) + ([QUOTE] + suffix);
    assert Quoted(EncodedAs(s, html)) + suffix == [QUOTE] + body;
    assert ([QUOTE] + body)[1..] == body;
    AnyRoundTrip(s, html, suffix);
    r := ReadString(it);
    assert [] + ReadAs(s, html) == ReadAs(s, html);
  }
}
