/** The output stream of json-iterator: writing strings. */
module JsonStream {
  import opened Bytes
  import opened Utf8
  import opened JsonString

  /** The text of a string value. */
  function Quoted(body: bytes): bytes {
    [QUOTE] + (body + [QUOTE])
  }

  class Stream {
    var buf: bytes

    constructor ()
      ensures buf == []
    {
      buf := [];
    }

    /** Writes a string without protection for HTML: a run of safe bytes first, then byte by byte. */
    method WriteString(s: bytes)
      modifies this
      ensures buf == old(buf) + Quoted(Encoded(s))
    {
      hide Encoded;
      buf := buf + [QUOTE];
      ghost var start := buf;
      var i := 0;
      while i < |s| && Safe(s[i], false)
        invariant 0 <= i <= |s| && buf == start + s[..i]
        invariant start + Encoded(s) == start + (s[..i] + Encoded(s[i..]))
      {
        EncodedUnfold(s, i);
        assert s[..i + 1] == s[..i] + [s[i]];
        Associate(s[..i], [s[i]], Encoded(s[i + 1..]));
        buf := buf + [s[i]];
        i := i + 1;
      }
      Associate(start, s[..i], Encoded(s[i..]));
      if i == |s| {
        EncodedNothing();
        assert s[i..] == [] && start + (s[..i] + []) == start + s[..i];
        buf := buf + [QUOTE];
      } else {
        WriteSlow(i, s);
      }
      AllQuoted(old(buf), Encoded(s));
    }

    /** The rest of a string byte by byte: safe bytes are copied in runs. */
    method WriteSlow(from: nat, s: bytes)
      requires from <= |s|
      modifies this
      ensures buf == old(buf) + Encoded(s[from..]) + [QUOTE]
    {
      hide Encoded, Escape;
      var i, start := from, from;
      assert s[from..from] == [];
      assert old(buf) + Encoded(s[from..]) == buf + ([] + Encoded(s[from..]));
      while i < |s|
        invariant from <= start <= i <= |s|
        invariant old(buf) + Encoded(s[from..]) == buf + (s[start..i] + Encoded(s[i..]))
      {
        EncodedUnfold(s, i);
        if Safe(s[i], false) {
          PassOver(buf, s, start, i, i + 1, Encoded(s[i + 1..]));
          i := i + 1;
        } else {
          Escaped(buf, s[start..i], Escape(s[i]), Encoded(s[i + 1..]));
          buf := buf + s[start..i];
          buf := buf + Escape(s[i]);
          i := i + 1;
          start := i;
          assert s[start..i] == [];
        }
      }
      EncodedNothing();
      assert s[i..] == [] && s[start..i] == s[start..] && s[start..] + [] == s[start..];
      if start < |s| {
        buf := buf + s[start..];
      } else {
        assert s[start..] == [] && buf + [] == buf;
      }
      buf := buf + [QUOTE];
    }

    /** The same with protection for HTML: text beyond ASCII is taken rune by rune. */
    method WriteStringWithHTMLEscaped(s: bytes)
      modifies this
      ensures buf == old(buf) + Quoted(HtmlEncoded(s))
    {
      hide HtmlEncoded;
      buf := buf + [QUOTE];
      ghost var start := buf;
      var i := 0;
      while i < |s| && s[i] < 0x80 && Safe(s[i], true)
        invariant 0 <= i <= |s| && buf == start + s[..i]
        invariant start + HtmlEncoded(s) == start + (s[..i] + HtmlEncoded(s[i..]))
      {
        HtmlUnfold(s, i);
        assert s[..i + 1] == s[..i] + [s[i]];
        Associate(s[..i], [s[i]], HtmlEncoded(s[i + 1..]));
        buf := buf + [s[i]];
        i := i + 1;
      }
      Associate(start, s[..i], HtmlEncoded(s[i..]));
      if i == |s| {
        EncodedNothing();
        assert s[i..] == [] && start + (s[..i] + []) == start + s[..i];
        buf := buf + [QUOTE];
      } else {
        WriteSlowWithHTMLEscaped(i, s);
      }
      AllQuoted(old(buf), HtmlEncoded(s));
    }

    method WriteSlowWithHTMLEscaped(from: nat, s: bytes)
      requires from <= |s|
      modifies this
      ensures buf == old(buf) + HtmlEncoded(s[from..]) + [QUOTE]
    {
      hide HtmlEncoded, Escape, SequenceSize, CodePoint, HtmlUnit, UnitSize;
      var i, start := from, from;
      assert s[from..from] == [];
      assert old(buf) + HtmlEncoded(s[from..]) == buf + ([] + HtmlEncoded(s[from..]));
      while i < |s|
        invariant from <= start <= i <= |s|
        invariant old(buf) + HtmlEncoded(s[from..]) == buf + (s[start..i] + HtmlEncoded(s[i..]))
      {
        HtmlUnfold(s, i);
        var copied, n, text := WriteUnit(s, i);
        if copied {
          PassOver(buf, s, start, i, i + n, HtmlEncoded(s[i + n..]));
          i := i + n;
        } else {
          Escaped(buf, s[start..i], text, HtmlEncoded(s[i + n..]));
          buf := buf + s[start..i];
          buf := buf + text;
          i := i + n;
          start := i;
          assert s[start..i] == [];
        }
      }
      EncodedNothing();
      assert s[i..] == [] && s[start..i] == s[start..] && s[start..] + [] == s[start..];
      if start < |s| {
        buf := buf + s[start..];
      } else {
        assert s[start..] == [] && buf + [] == buf;
      }
      buf := buf + [QUOTE];
    }
  }

  /** One step of the slow HTML writer: whether the unit at i is copied as it is, its size, and its text. */
  method WriteUnit(s: bytes, i: nat) returns (copied: bool, n: nat, text: bytes)
    requires i < |s|
    ensures n == UnitSize(s[i..]) && i + n <= |s| && text == HtmlUnit(s[i..])
    ensures copied ==> text == s[i..i + n]
  {
    hide Escape, SequenceSize, CodePoint;
    var t := s[i..];
    var b := s[i];
    if b < 0x80 {
      AsciiSize(t);
      if Safe(b, true) {
        return true, 1, [b];
      }
      return false, 1, Escape(b);
    }
    var size := SequenceSize(t);
    if size == 0 {
      return false, 1, REPLACEMENT_ESCAPE;
    }
    assert t[..size] == s[i..i + size];
    var c := CodePoint(t);
    if c == 0x2028 || c == 0x2029 {
      return false, size, [BACKSLASH, LOWER_U, 50, 48, 50] + [HexDigit(c % 16)];
    }
    return true, size, s[i..i + size];
  }

  lemma AsciiSize(t: bytes)
    requires t != [] && t[0] < 0x80
    ensures SequenceSize(t) == 1
  {
  }

  lemma EncodedUnfold(s: bytes, i: nat)
    requires i < |s|
    ensures Encoded(s[i..]) == (if Safe(s[i], false) then s[i..i + 1] else Escape(s[i])) + Encoded(s[i + 1..])
    ensures s[i..i + 1] == [s[i]]
  {
    assert s[i..][1..] == s[i + 1..];
  }

  lemma HtmlUnfold(s: bytes, i: nat)
    requires i < |s|
    ensures HtmlEncoded(s[i..]) == HtmlUnit(s[i..]) + HtmlEncoded(s[i + UnitSize(s[i..])..])
    ensures s[i] < 0x80 && Safe(s[i], true) ==> HtmlUnit(s[i..]) == [s[i]] && UnitSize(s[i..]) == 1
  {
    var n := UnitSize(s[i..]);
    assert s[i..][n..] == s[i + n..];
  }

  lemma EncodedNothing()
    ensures Encoded([]) == [] && HtmlEncoded([]) == []
  {
  }

  lemma PassOver(buf: bytes, s: bytes, start: nat, i: nat, j: nat, rest: bytes)
    requires start <= i <= j <= |s|
    ensures buf + (s[start..i] + (s[i..j] + rest)) == buf + (s[start..j] + rest)
  {
    assert s[start..i] + s[i..j] == s[start..j];
    Associate(s[start..i], s[i..j], rest);
  }

  lemma Escaped(buf: bytes, run: bytes, escape: bytes, rest: bytes)
    ensures buf + (run + (escape + rest)) == buf + run + escape + ([] + rest)
  {
    Associate(buf, run, escape + rest);
    Associate(buf + run, escape, rest);
    assert [] + rest == rest;
  }

  lemma AllQuoted(buf: bytes, body: bytes)
    ensures buf + [QUOTE] + body + [QUOTE] == buf + Quoted(body)
  {
  }
}
