/** UTF-8 as appendRune writes it and as Go decodes it; well-formed sequences as in RFC 3629. */
module Utf8 {
  import opened Bytes

  const REPLACEMENT: int := 0xFFFD

  /** A code point that may be encoded: section 3 of RFC 3629. */
  predicate IsScalar(r: int) {
    0 <= r < 0xD800 || 0xE000 <= r <= 0x10FFFF
  }

  predicate IsSurrogate(r: int) {
    0xD800 <= r < 0xE000
  }

  /** The bytes of a rune; anything that is not a scalar value is written as the replacement character. */
  function RuneBytes(r: int): (b: bytes)
    ensures 1 <= |b| <= 4
  {
    if 0 <= r < 0x80 then [r]
    else if 0x80 <= r < 0x800 then [0xC0 + r / 64, 0x80 + r % 64]
    else if !IsScalar(r) then [0xEF, 0xBF, 0xBD]
    else if r < 0x10000 then [0xE0 + r / 4096, 0x80 + r / 64 % 64, 0x80 + r % 64]
    else [0xF0 + r / 262144, 0x80 + r / 4096 % 64, 0x80 + r / 64 % 64, 0x80 + r % 64]
  }

  method AppendRune(p: bytes, rune: int) returns (out: bytes)
    ensures out == p + RuneBytes(rune)
  {
    var r := rune;
    if 0 <= r <= 0x7F {
      return p + [r];
    }
    if 0 <= r <= 0x7FF {
      return p + [0xC0 + r / 64, 0x80 + r % 64];
    }
    if r < 0 || r > 0x10FFFF || (0xD800 <= r <= 0xDFFF) {
      r := REPLACEMENT;
    }
    if r <= 0xFFFF {
      return p + [0xE0 + r / 4096, 0x80 + r / 64 % 64, 0x80 + r % 64];
    }
    return p + [0xF0 + r / 262144, 0x80 + r / 4096 % 64, 0x80 + r / 64 % 64, 0x80 + r % 64];
  }

  predicate In(b: byte, lo: int, hi: int) {
    lo <= b <= hi
  }

  /** A continuation byte. */
  predicate Tail(b: byte) {
    In(b, 0x80, 0xBF)
  }

  /** The size of the well-formed sequence at the front of s, by the table of section 4 of RFC 3629; 0 if there is none. */
  function SequenceSize(s: bytes): (n: nat)
    ensures n <= |s| && n <= 4
  {
    if s == [] then 0
    else if s[0] < 0x80 then 1
    else if In(s[0], 0xC2, 0xDF) then (if |s| >= 2 && Tail(s[1]) then 2 else 0)
    else if In(s[0], 0xE0, 0xEF) then
      if |s| >= 3 && Tail(s[2])
         && In(s[1], if s[0] == 0xE0 then 0xA0 else 0x80, if s[0] == 0xED then 0x9F else 0xBF) then 3 else 0
    else if In(s[0], 0xF0, 0xF4) then
      if |s| >= 4 && Tail(s[2]) && Tail(s[3])
         && In(s[1], if s[0] == 0xF0 then 0x90 else 0x80, if s[0] == 0xF4 then 0x8F else 0xBF) then 4 else 0
    else 0
  }

  /** The bits of a byte without its mark. */
  function Bits(b: byte, mark: int): int {
    b - mark
  }

  /** The code point of the sequence at the front of s. */
  function CodePoint(s: bytes): int
    requires SequenceSize(s) > 0
  {
    match SequenceSize(s)
    case 1 => s[0]
    case 2 => Bits(s[0], 0xC0) * 64 + Bits(s[1], 0x80)
    case 3 => Bits(s[0], 0xE0) * 4096 + Bits(s[1], 0x80) * 64 + Bits(s[2], 0x80)
    case _ => Bits(s[0], 0xF0) * 262144 + Bits(s[1], 0x80) * 4096 + Bits(s[2], 0x80) * 64 + Bits(s[3], 0x80)
  }

  /** appendRune writes a well-formed sequence, of the rune itself if it is a scalar value. */
  lemma RuneWellFormed(r: int, rest: bytes)
    ensures SequenceSize(RuneBytes(r) + rest) == |RuneBytes(r)|
    ensures CodePoint(RuneBytes(r) + rest) == if IsScalar(r) then r else REPLACEMENT
  {
    if IsScalar(r) && r >= 0x800 {
      Digits(r);
    }
  }

  lemma Digits(r: int)
    requires 0 <= r
    ensures r == r / 64 * 64 + r % 64
    ensures r == r / 4096 * 4096 + r / 64 % 64 * 64 + r % 64
    ensures r == r / 262144 * 262144 + r / 4096 % 64 * 4096 + r / 64 % 64 * 64 + r % 64
  {
    assert r / 64 / 64 == r / 4096;
    assert r / 4096 / 64 == r / 262144;
  }

  /** Every well-formed sequence is what appendRune writes for its code point, so there is no other, shorter one. */
  lemma RuneUnique(s: bytes)
    requires SequenceSize(s) > 0
    ensures IsScalar(CodePoint(s))
    ensures RuneBytes(CodePoint(s)) == s[..SequenceSize(s)]
  {
    hide RuneBytes;
    var n := SequenceSize(s);
    if n == 1 {
      ShortRune(s[0]);
    } else if n == 2 {
      ShortRune(CodePoint(s));
    } else if n == 3 {
      ThreeByteRune(s[0] - 0xE0, s[1] - 0x80, s[2] - 0x80);
    } else {
      FourByteRune(s[0] - 0xF0, s[1] - 0x80, s[2] - 0x80, s[3] - 0x80);
    }
  }

  lemma ShortRune(r: nat)
    requires r < 0x800
    ensures RuneBytes(r) == if r < 0x80 then [r] else [0xC0 + r / 64, 0x80 + r % 64]
  {
  }

  lemma ThreeByteRune(a: nat, b: nat, c: nat)
    requires a < 16 && b < 64 && c < 64 && (a == 0 ==> b >= 32) && (a == 13 ==> b < 32)
    ensures var r := a * 4096 + b * 64 + c; IsScalar(r) && RuneBytes(r) == [0xE0 + a, 0x80 + b, 0x80 + c]
  {
    ThreeDigits(a, b, c);
  }

  lemma FourByteRune(a: nat, b: nat, c: nat, d: nat)
    requires a < 5 && b < 64 && c < 64 && d < 64 && (a == 0 ==> b >= 16) && (a == 4 ==> b < 16)
    ensures var r := a * 262144 + b * 4096 + c * 64 + d;
      IsScalar(r) && RuneBytes(r) == [0xF0 + a, 0x80 + b, 0x80 + c, 0x80 + d]
  {
    FourDigits(a, b, c, d);
  }

  lemma ThreeDigits(a: nat, b: nat, c: nat)
    requires b < 64 && c < 64
    ensures var r := a * 4096 + b * 64 + c; r / 4096 == a && r / 64 % 64 == b && r % 64 == c
  {
    var r := a * 4096 + b * 64 + c;
    assert r / 64 == a * 64 + b;
  }

  lemma FourDigits(a: nat, b: nat, c: nat, d: nat)
    requires b < 64 && c < 64 && d < 64
    ensures var r := a * 262144 + b * 4096 + c * 64 + d;
      r / 262144 == a && r / 4096 % 64 == b && r / 64 % 64 == c && r % 64 == d
  {
    ThreeDigits(a * 64 + b, c, d);
  }

  predicate ValidUtf8(s: bytes)
    decreases |s|
  {
    s == [] || (SequenceSize(s) > 0 && ValidUtf8(s[SequenceSize(s)..]))
  }

  lemma SequencePrefix(s: bytes, rest: bytes)
    requires SequenceSize(s) == |s| > 0
    ensures SequenceSize(s + rest) == |s|
  {
  }
}
